/** Which outputs a scan answers at all, whatever matches where: the picks of its steps, said without
    running it. */
module SilentAnswers {
  import opened Results
  import opened Group
  import opened SilentPayments

  /** What a scan is over. */
  datatype Scene = Scene(outputs: seq<int>, secret: Point, spend: Point, labels: Option<Labels>)

  predicate MatchesAt(s: Scene, a: nat, k: nat)
    requires a < |s.outputs|
  {
    Matches(s.outputs[a], Add(s.spend, H.shared(s.secret, k)), s.labels).Some?
  }

  /** Step k has picked place t[k]: it matches there, and every place ahead of it that matches at step k
      had been picked before. */
  ghost predicate Picks(s: Scene, t: seq<nat>) {
    && |t| <= K_MAX
    && (forall k :: 0 <= k < |t| ==> t[k] < |s.outputs| && t[k] !in t[..k])
    && (forall k, a: nat :: 0 <= k < |t| && a < t[k] && a < |s.outputs| && MatchesAt(s, a, k) ==> a in t[..k])
    && (forall k :: 0 <= k < |t| && t[k] < |s.outputs| ==> MatchesAt(s, t[k], k))
  }

  function From(s: Scene, places: seq<nat>, k: nat): seq<Found>
    requires forall m :: 0 <= m < |places| ==> places[m] < |s.outputs|
  {
    ScanFrom(At(s.outputs, places), s.secret, s.spend, s.labels, k)
  }

  function Answers(s: Scene): seq<Found> {
    ScanFrom(s.outputs, s.secret, s.spend, s.labels, 0)
  }

  /** The places not picked yet, in order. */
  ghost predicate Unpicked(s: Scene, t: seq<nat>, places: seq<nat>): (r: bool)
    ensures r ==> forall m :: 0 <= m < |places| ==> places[m] < |s.outputs|
  {
    && (forall m :: 0 <= m < |places| ==> places[m] < |s.outputs|)
    && (forall m, n :: 0 <= m < n < |places| ==> places[m] < places[n])
    && (forall a: nat :: a in places <==> a < |s.outputs| && a !in t)
  }

  lemma UnpickedAfter(s: Scene, t: seq<nat>, places: seq<nat>, m: nat)
    requires Unpicked(s, t, places) && m < |places|
    ensures Unpicked(s, t + [places[m]], places[..m] + places[m + 1..])
  {
    TakenOut(places, m);
    var after := places[..m] + places[m + 1..];
    assert forall n :: 0 <= n < |after| ==> after[n] in after;
  }

  /** The first match among the open places is the first of all places that matches and is open. */
  lemma FirstOpen(s: Scene, t: seq<nat>, places: seq<nat>, k: nat)
    requires Unpicked(s, t, places)
    ensures var m := FirstMatch(At(s.outputs, places), Add(s.spend, H.shared(s.secret, k)), s.labels);
            && m <= |places|
            && (m < |places| ==> MatchesAt(s, places[m], k))
            && forall a: nat :: a < |s.outputs| && a !in t && (m < |places| ==> a < places[m]) ==> !MatchesAt(s, a, k)
  {
    hide Matches, Add;
    var rest := At(s.outputs, places);
    var pk := Add(s.spend, H.shared(s.secret, k));
    FirstMatchExact(rest, pk, s.labels);
    var m := FirstMatch(rest, pk, s.labels);
    forall a: nat | a < |s.outputs| && a !in t && (m < |places| ==> a < places[m])
      ensures !MatchesAt(s, a, k)
    {
      assert a in places;
      var n :| 0 <= n < |places| && places[n] == a;
      assert n < m && rest[n] == s.outputs[a];
    }
  }

  /** One step of the scan, over the open places. */
  lemma StepOver(s: Scene, t: seq<nat>, places: seq<nat>, k: nat)
    requires Unpicked(s, t, places)
    ensures var m := FirstMatch(At(s.outputs, places), Add(s.spend, H.shared(s.secret, k)), s.labels);
            var here := From(s, places, k);
            if k < K_MAX && m < |places|
            then here != [] && here[0].x == s.outputs[places[m]]
                 && Unpicked(s, t + [places[m]], places[..m] + places[m + 1..])
                 && here[1..] == From(s, places[..m] + places[m + 1..], k + 1)
            else here == []
  {
    hide Matches, FirstMatch, Add, Unpicked;
    FirstOpen(s, t, places, k);
    var rest := At(s.outputs, places);
    var m := FirstMatch(rest, Add(s.spend, H.shared(s.secret, k)), s.labels);
    if k < K_MAX && m < |places| {
      UnpickedAfter(s, t, places, m);
      AtWithout(s.outputs, places, m);
      ScanUnfolds(rest, s.secret, s.spend, s.labels, k);
    }
  }

  lemma PickIsFirst(s: Scene, t: seq<nat>, places: seq<nat>, k: nat)
    requires Picks(s, t) && k < |t| && Unpicked(s, t[..k], places)
    ensures var m := FirstMatch(At(s.outputs, places), Add(s.spend, H.shared(s.secret, k)), s.labels);
            m < |places| && places[m] == t[k] && t[..k + 1] == t[..k] + [places[m]]
  {
    hide MatchesAt, FirstMatch, Add, At;
    FirstOpen(s, t[..k], places, k);
    var m := FirstMatch(At(s.outputs, places), Add(s.spend, H.shared(s.secret, k)), s.labels);
    assert MatchesAt(s, t[k], k);
    assert m < |places| && places[m] in places && MatchesAt(s, places[m], k);
    assert places[m] == t[k];
  }

  /** A certificate is right: the picks it names are the answers, step by step. */
  lemma {:induction false} PicksAreAnsweredFrom(s: Scene, t: seq<nat>, places: seq<nat>, k: nat)
    requires Picks(s, t) && k <= |t| && Unpicked(s, t[..k], places)
    ensures var here := From(s, places, k);
            |t| - k <= |here| && forall m :: k <= m < |t| ==> here[m - k].x == s.outputs[t[m]]
    decreases |t| - k
  {
    hide Unpicked, FirstMatch, Add, From, MatchesAt;
    if k < |t| {
      var m := FirstMatch(At(s.outputs, places), Add(s.spend, H.shared(s.secret, k)), s.labels);
      PickIsFirst(s, t, places, k);
      var after := places[..m] + places[m + 1..];
      StepOver(s, t[..k], places, k);
      PicksAreAnsweredFrom(s, t, after, k + 1);
      var here, next := From(s, places, k), From(s, after, k + 1);
      forall i | k + 1 <= i < |t|
        ensures here[i - k].x == s.outputs[t[i]]
      {
        assert here[i - k] == here[1..][i - k - 1] == next[i - (k + 1)];
      }
    }
  }

  lemma Extend(s: Scene, t: seq<nat>, places: seq<nat>)
    requires Picks(s, t) && Unpicked(s, t, places) && |t| < K_MAX
    ensures var m := FirstMatch(At(s.outputs, places), Add(s.spend, H.shared(s.secret, |t|)), s.labels);
            m < |places| ==> Picks(s, t + [places[m]])
  {
    hide MatchesAt, FirstMatch, Add, At;
    FirstOpen(s, t, places, |t|);
    var m := FirstMatch(At(s.outputs, places), Add(s.spend, H.shared(s.secret, |t|)), s.labels);
    if m < |places| {
      var u := t + [places[m]];
      assert places[m] in places;
      assert u[..|t|] == t;
      assert forall k :: 0 <= k < |t| ==> u[..k] == t[..k] && u[k] == t[k];
    }
  }

  /** And there is one for the whole answer. */
  lemma {:induction false} FullPicks(s: Scene, t: seq<nat>, places: seq<nat>) returns (full: seq<nat>)
    requires Picks(s, t) && Unpicked(s, t, places)
    ensures Picks(s, full) && |full| == |t| + |From(s, places, |t|)|
    decreases |places|
  {
    hide Picks, Unpicked, FirstMatch, Add, From;
    var m := FirstMatch(At(s.outputs, places), Add(s.spend, H.shared(s.secret, |t|)), s.labels);
    StepOver(s, t, places, |t|);
    if |t| < K_MAX && m < |places| {
      Extend(s, t, places);
      full := FullPicks(s, t + [places[m]], places[..m] + places[m + 1..]);
    } else {
      full := t;
    }
  }

  lemma NothingPicked(s: Scene)
    ensures Unpicked(s, [], AllPlaces(s.outputs)) && At(s.outputs, AllPlaces(s.outputs)) == s.outputs
    ensures Picks(s, []) && From(s, AllPlaces(s.outputs), 0) == Answers(s)
  {
    var places := AllPlaces(s.outputs);
    forall a: nat | a < |s.outputs|
      ensures a in places
    {
      assert places[a] == a;
    }
    assert At(s.outputs, places) == s.outputs;
  }

  lemma PicksAreAnswered(s: Scene, t: seq<nat>)
    requires Picks(s, t)
    ensures |t| <= |Answers(s)| && forall k :: 0 <= k < |t| ==> Answers(s)[k].x == s.outputs[t[k]]
  {
    hide Picks, Unpicked, From, Answers;
    NothingPicked(s);
    assert t[..0] == [];
    PicksAreAnsweredFrom(s, t, AllPlaces(s.outputs), 0);
  }

  lemma SomePicksAreAll(s: Scene) returns (full: seq<nat>)
    ensures Picks(s, full) && |full| == |Answers(s)|
  {
    hide Picks, Unpicked, From, Answers;
    NothingPicked(s);
    full := FullPicks(s, [], AllPlaces(s.outputs));
  }

  ghost predicate Answered(s: Scene, x: int) {
    exists f :: f in Answers(s) && f.x == x
  }

  ghost predicate Picked(s: Scene, t: seq<nat>, x: int) {
    exists k :: 0 <= k < |t| && t[k] < |s.outputs| && s.outputs[t[k]] == x
  }

  /** Any outputs at all are in the answer, at whatever positions, if and only if there are picks that
      hold them. */
  lemma AnsweredIffPicked(s: Scene, xs: set<int>)
    ensures (forall x :: x in xs ==> Answered(s, x))
            <==> exists t :: Picks(s, t) && forall x :: x in xs ==> Picked(s, t, x)
  {
    if forall x :: x in xs ==> Answered(s, x) {
      var full := SomePicksAreAll(s);
      forall x | x in xs
        ensures Picked(s, full, x)
      {
        AnswerIsPicked(s, full, x);
      }
    }
    forall t, x | Picks(s, t) && Picked(s, t, x)
      ensures Answered(s, x)
    {
      PickIsAnswered(s, t, x);
    }
  }

  lemma PickIsAnswered(s: Scene, t: seq<nat>, x: int)
    requires Picks(s, t) && Picked(s, t, x)
    ensures Answered(s, x)
  {
    hide Picks, Answers;
    PicksAreAnswered(s, t);
    var k :| 0 <= k < |t| && t[k] < |s.outputs| && s.outputs[t[k]] == x;
    assert Answers(s)[k] in Answers(s);
  }

  lemma AnswerIsPicked(s: Scene, full: seq<nat>, x: int)
    requires Picks(s, full) && |full| == |Answers(s)| && Answered(s, x)
    ensures Picked(s, full, x)
  {
    hide Answers;
    PicksAreAnswered(s, full);
    var f :| f in Answers(s) && f.x == x;
    var k :| 0 <= k < |Answers(s)| && Answers(s)[k] == f;
    assert full[k] < |s.outputs|;
  }

  /** Picks are determined: two of them agree as far as both go. */
  lemma PicksAgree(s: Scene, t: seq<nat>, u: seq<nat>)
    requires Picks(s, t) && Picks(s, u) && |t| <= |u|
    ensures t <= u
  {
    PicksAgreeTo(s, t, u, |t|);
    assert t[..|t|] == t;
    assert u[..|t|] <= u;
  }

  lemma {:induction false} PicksAgreeTo(s: Scene, t: seq<nat>, u: seq<nat>, k: nat)
    requires Picks(s, t) && Picks(s, u) && k <= |t| <= |u|
    ensures t[..k] == u[..k]
  {
    hide MatchesAt;
    if k > 0 {
      PicksAgreeTo(s, t, u, k - 1);
      assert MatchesAt(s, t[k - 1], k - 1) && MatchesAt(s, u[k - 1], k - 1);
      assert t[..k] == t[..k - 1] + [t[k - 1]] && u[..k] == u[..k - 1] + [u[k - 1]];
    }
  }

  function SceneOf(p: Payment): Scene {
    Scene(p.outputs, p.secret, p.spend, p.labels)
  }

  /** Of a payment: every output made for the scan key is in the answer, at any position, if and only if
      there are picks that hold them all. */
  lemma EveryCreatedIsAnswered(p: Payment)
    requires |p.created| == |p.recipients|
    ensures (forall i: nat :: Mine(p, i) ==> Answered(SceneOf(p), p.created[i]))
            <==> exists t :: Picks(SceneOf(p), t)
                             && forall i: nat :: Mine(p, i) ==> Picked(SceneOf(p), t, p.created[i])
  {
    hide Answered, Picked, Picks;
    var xs := set i | 0 <= i < |p.created| && Mine(p, i) :: p.created[i];
    AnsweredIffPicked(SceneOf(p), xs);
    if forall i: nat :: Mine(p, i) ==> Answered(SceneOf(p), p.created[i]) {
      assert forall x :: x in xs ==> Answered(SceneOf(p), x);
      var t :| Picks(SceneOf(p), t) && forall x :: x in xs ==> Picked(SceneOf(p), t, x);
      assert forall i: nat :: Mine(p, i) ==> p.created[i] in xs;
    }
    if t :| Picks(SceneOf(p), t) && forall i: nat :: Mine(p, i) ==> Picked(SceneOf(p), t, p.created[i]) {
      assert forall x :: x in xs ==> Picked(SceneOf(p), t, x);
      assert forall i: nat :: Mine(p, i) ==> p.created[i] in xs;
    }
  }
}
