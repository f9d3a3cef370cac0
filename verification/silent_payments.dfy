/** Silent Payments as BIP352 defines them: what a sender derives, what a scanner finds. */
module SilentPayments {
  import opened Results
  import opened Group

  const K_MAX := 2323

  // ------------------------------------------------------------ the inputs, from either side

  function Evens(keys: seq<Point>): seq<Point> {
    seq(|keys|, i requires 0 <= i < |keys| => Even(keys[i]))
  }

  /** The sum of the input private keys, the taproot ones negated where their point has odd y. */
  function SecretSum(taproot: seq<Scalar>, plain: seq<Scalar>): Scalar {
    Add(Sum(Evens(taproot)), Sum(plain))
  }

  /** Every input counts, a taproot one as its even-y point, in whatever order they come. */
  lemma EveryInputCounts(taproot: seq<Scalar>, plain: seq<Scalar>, d: Scalar)
    ensures SecretSum([], []) == 0
    ensures SecretSum(taproot + [d], plain) == Add(SecretSum(taproot, plain), if Odd(d) then Neg(d) else d)
    ensures SecretSum(taproot, plain + [d]) == Add(SecretSum(taproot, plain), d)
  {
    var even := if Odd(d) then Neg(d) else d;
    assert Evens(taproot + [d]) == Evens(taproot) + [even];
    assert (Evens(taproot) + [even])[..|taproot|] == Evens(taproot);
    assert (plain + [d])[..|plain|] == plain;
    hide Add;
    SwapTerms(Sum(Evens(taproot)), even, Sum(plain));
    AddAssoc(Sum(Evens(taproot)), Sum(plain), d);
  }

  /** What the recipient's side holds of a transaction: the sum of its input keys, and the hash of
      its smallest outpoint with that sum. */
  datatype Summary = Summary(sum: Nonzero, hash: Nonzero)

  /** `prevouts_summary`, on parsed keys: the taproot ones are the even-y points of their x. */
  function PrevoutsSummary(outpoint: Octets, taproot: seq<Point>, plain: seq<Point>): Option<Summary> {
    var sum := Add(Sum(taproot), Sum(plain));
    if taproot == [] == plain || sum == 0 then None else Some(Summary(sum, H.inputs(outpoint, sum)))
  }

  /** The x-only keys of the taproot inputs, as the scanner parses them out of the transaction. */
  predicate AreXOnlyKeysOf(xonly: seq<Point>, taproot: seq<Scalar>) {
    |xonly| == |taproot|
    && forall i :: 0 <= i < |taproot| ==> taproot[i] != 0 && LiftX(X(taproot[i])) == Some(xonly[i])
  }

  /** Both sides negate the same taproot keys. */
  lemma SidesAgreeOnTheSum(outpoint: Octets, xonly: seq<Point>, taproot: seq<Scalar>, plain: seq<Scalar>)
    requires AreXOnlyKeysOf(xonly, taproot) && SecretSum(taproot, plain) != 0
    ensures PrevoutsSummary(outpoint, xonly, plain)
            == Some(Summary(SecretSum(taproot, plain), H.inputs(outpoint, SecretSum(taproot, plain))))
  {
    forall i | 0 <= i < |taproot|
      ensures xonly[i] == Even(taproot[i])
    {
      LiftOfX(taproot[i]);
    }
    assert xonly == Evens(taproot);
  }

  function SenderSecret(hash: Scalar, sum: Scalar, scan: Point): Point {
    Mul(Mul(hash, sum), scan)
  }

  function ScannerSecret(hash: Scalar, scan: Scalar, sum: Point): Point {
    Mul(Mul(hash, scan), sum)
  }

  /** What both are, in the integers: the scan key times the sum times the hash. */
  lemma SecretIsProduct(hash: Scalar, sum: Scalar, scan: Point)
    ensures exists q :: hash * (sum * scan) == q * C.n + SenderSecret(hash, sum, scan)
  {
    var m := Mul(hash, sum);
    MulIsProduct(hash, sum);
    MulIsProduct(m, scan);
    var q1 :| hash * sum == q1 * C.n + m;
    var q2 :| m * scan == q2 * C.n + SenderSecret(hash, sum, scan);
    ProductOfThree(hash, sum, scan, q1, q2, m, SenderSecret(hash, sum, scan));
  }

  lemma ProductOfThree(a: int, b: int, c: int, q1: int, q2: int, m: int, r: int)
    requires a * b == q1 * C.n + m && m * c == q2 * C.n + r
    ensures a * (b * c) == (q1 * c + q2) * C.n + r
  {
    assert a * (b * c) == (a * b) * c == (q1 * C.n + m) * c == (q1 * C.n) * c + m * c;
    assert (q1 * C.n) * c == (q1 * c) * C.n;
    assert (q1 * c + q2) * C.n == (q1 * c) * C.n + q2 * C.n;
  }

  lemma SharedSecret(hash: Scalar, sum: Scalar, scan: Scalar)
    ensures SenderSecret(hash, sum, scan) == ScannerSecret(hash, scan, sum)
  {
    MulAssoc(hash, sum, scan);
    MulComm(sum, scan);
    MulAssoc(hash, scan, sum);
  }

  // ------------------------------------------------------------ creating outputs

  datatype Recipient = Recipient(scan: Point, spend: Point)

  /** The k of every recipient: each scan key counts its own recipients from 0, in any order. */
  ghost predicate RanksOk(recipients: seq<Recipient>, ranks: seq<nat>): (r: bool)
    ensures r ==> |ranks| == |recipients|
  {
    && |ranks| == |recipients|
    && (forall i, j :: 0 <= i < j < |ranks| && recipients[i].scan == recipients[j].scan ==> ranks[i] != ranks[j])
    && (forall i, k :: 0 <= i < |ranks| && 0 <= k < ranks[i] ==> HasRank(recipients, ranks, recipients[i].scan, k))
  }

  ghost predicate HasRank(recipients: seq<Recipient>, ranks: seq<nat>, scan: Point, k: nat)
    requires |ranks| == |recipients|
  {
    exists j :: 0 <= j < |ranks| && recipients[j].scan == scan && ranks[j] == k
  }

  /** How many of the first m recipients have this scan key. */
  function CountBefore(recipients: seq<Recipient>, scan: Point, m: nat): nat
    requires m <= |recipients|
  {
    if m == 0 then 0
    else CountBefore(recipients, scan, m - 1) + (if recipients[m - 1].scan == scan then 1 else 0)
  }

  lemma {:induction false} CountReaches(recipients: seq<Recipient>, scan: Point, m: nat, k: nat) returns (j: nat)
    requires m <= |recipients| && k < CountBefore(recipients, scan, m)
    ensures j < m && recipients[j].scan == scan && CountBefore(recipients, scan, j) == k
  {
    if k < CountBefore(recipients, scan, m - 1) {
      j := CountReaches(recipients, scan, m - 1, k);
    } else {
      j := m - 1;
    }
  }

  lemma {:induction false} CountGrows(recipients: seq<Recipient>, scan: Point, a: nat, b: nat)
    requires a < b <= |recipients| && recipients[a].scan == scan
    ensures CountBefore(recipients, scan, a) < CountBefore(recipients, scan, b)
  {
    if a + 1 < b { CountGrows(recipients, scan, a, b - 1); }
  }

  /** Counting in the order given is one such assignment. */
  lemma CountingIsARanking(recipients: seq<Recipient>)
    ensures RanksOk(recipients, seq(|recipients|, i requires 0 <= i < |recipients| =>
                                                    CountBefore(recipients, recipients[i].scan, i)))
  {
    var ranks := seq(|recipients|, i requires 0 <= i < |recipients| => CountBefore(recipients, recipients[i].scan, i));
    forall i, j | 0 <= i < j < |ranks| && recipients[i].scan == recipients[j].scan
      ensures ranks[i] != ranks[j]
    {
      CountGrows(recipients, recipients[i].scan, i, j);
    }
    forall i, k | 0 <= i < |ranks| && 0 <= k < ranks[i]
      ensures HasRank(recipients, ranks, recipients[i].scan, k)
    {
      var j := CountReaches(recipients, recipients[i].scan, i, k);
      assert ranks[j] == k;
    }
  }

  function OutputPoint(recipient: Recipient, k: nat, hash: Scalar, sum: Scalar): Point {
    Add(recipient.spend, H.shared(SenderSecret(hash, sum, recipient.scan), k))
  }

  /** The C call of the sender; None is its 0. */
  function CreateOutputs(recipients: seq<Recipient>, ranks: seq<nat>, outpoint: Octets,
                         taproot: seq<Scalar>, plain: seq<Scalar>): Option<seq<int>>
    requires |ranks| == |recipients|
  {
    var sum := SecretSum(taproot, plain);
    if sum == 0 then None
    else
      var hash := H.inputs(outpoint, sum);
      if exists i :: 0 <= i < |recipients|
                     && (ranks[i] >= K_MAX || OutputPoint(recipients[i], ranks[i], hash, sum) == 0)
      then None
      else Some(seq(|recipients|, i requires 0 <= i < |recipients| =>
                                    X(OutputPoint(recipients[i], ranks[i], hash, sum))))
  }

  /** When the call creates outputs, and which: inputs that do not cancel, no k beyond BIP352's limit of
      2323 outputs to one scan key, no output at infinity. */
  lemma CreatesExactly(recipients: seq<Recipient>, ranks: seq<nat>, outpoint: Octets, taproot: seq<Scalar>,
                       plain: seq<Scalar>)
    requires |ranks| == |recipients|
    ensures var r := CreateOutputs(recipients, ranks, outpoint, taproot, plain);
            var sum := SecretSum(taproot, plain);
            && (r.Some? <==> sum != 0 && forall i :: 0 <= i < |recipients| ==>
                  && ranks[i] < 2323
                  && Add(recipients[i].spend, H.shared(SenderSecret(H.inputs(outpoint, sum), sum, recipients[i].scan),
                                                       ranks[i])) != 0)
            && (r.Some? ==> |r.value| == |recipients| && forall i :: 0 <= i < |recipients| ==>
                  r.value[i] == X(Add(recipients[i].spend,
                                      H.shared(SenderSecret(H.inputs(outpoint, sum), sum, recipients[i].scan),
                                               ranks[i]))))
  {
    hide Add, SecretSum, SenderSecret;
  }

  /** Counted in order, the ranks stay below the limit exactly where no scan key is paid more than 2323
      times. */
  lemma LimitIsPerScanKey(recipients: seq<Recipient>)
    ensures (forall i :: 0 <= i < |recipients| ==> CountBefore(recipients, recipients[i].scan, i) < 2323)
            <==> forall i :: 0 <= i < |recipients| ==>
                   CountBefore(recipients, recipients[i].scan, |recipients|) <= 2323
  {
    forall i | 0 <= i < |recipients|
      ensures CountBefore(recipients, recipients[i].scan, i) < CountBefore(recipients, recipients[i].scan, |recipients|)
    {
      CountGrows(recipients, recipients[i].scan, i, |recipients|);
    }
    forall i | 0 <= i < |recipients| && CountBefore(recipients, recipients[i].scan, |recipients|) > 2323
      ensures exists j :: 0 <= j < |recipients| && CountBefore(recipients, recipients[j].scan, j) == 2323
    {
      var j := CountReaches(recipients, recipients[i].scan, |recipients|, 2323);
    }
  }

  // ------------------------------------------------------------ scanning

  /** The label cache: each label with the scalar it is a multiple of G by. */
  type Labels = map<Point, Scalar>

  datatype Match = Match(addend: Scalar, via: Option<Point>)

  /** Whether an output is P_k, or P_k plus a label of the cache, up to the y the x does not carry. */
  function Matches(x: int, pk: Point, labels: Option<Labels>): Option<Match> {
    if pk != 0 && X(pk) == x then Some(Match(0, None))
    else
      match (labels, LiftX(x))
      case (Some(cache), Some(p)) =>
        var even, other := Sub(p, pk), Sub(Neg(p), pk);
        if even in cache then Some(Match(cache[even], Some(even)))
        else if other in cache then Some(Match(cache[other], Some(other)))
        else None
      case _ => None
  }

  function FirstMatch(outputs: seq<int>, pk: Point, labels: Option<Labels>): nat {
    if outputs == [] || Matches(outputs[0], pk, labels).Some? then 0
    else 1 + FirstMatch(outputs[1..], pk, labels)
  }

  function Without(outputs: seq<int>, i: nat): seq<int>
    requires i < |outputs|
  {
    outputs[..i] + outputs[i + 1..]
  }

  lemma WithoutKeeps(outputs: seq<int>, i: nat)
    requires i < |outputs|
    ensures |Without(outputs, i)| == |outputs| - 1
    ensures forall x :: x in Without(outputs, i) ==> x in outputs
    ensures forall x :: x in outputs && x != outputs[i] ==> x in Without(outputs, i)
  {
    assert outputs == outputs[..i] + [outputs[i]] + outputs[i + 1..];
  }

  lemma {:induction false} FirstMatchExact(outputs: seq<int>, pk: Point, labels: Option<Labels>)
    ensures var i := FirstMatch(outputs, pk, labels);
            && i <= |outputs|
            && (i < |outputs| ==> Matches(outputs[i], pk, labels).Some?)
            && forall j :: 0 <= j < i ==> Matches(outputs[j], pk, labels).None?
  {
    if outputs != [] && Matches(outputs[0], pk, labels).None? { FirstMatchExact(outputs[1..], pk, labels); }
  }

  datatype Found = Found(x: int, tweak: Scalar, via: Option<Point>)

  /** BIP352 "Scanning" from the k-th output on, over the outputs not yet found. */
  function ScanFrom(outputs: seq<int>, secret: Point, spend: Point, labels: Option<Labels>, k: nat): seq<Found>
    decreases |outputs|
  {
    var t := H.shared(secret, k);
    var i := FirstMatch(outputs, Add(spend, t), labels);
    if k >= K_MAX || i >= |outputs| then []
    else
      match Matches(outputs[i], Add(spend, t), labels)
      case None => []
      case Some(m) =>
        [Found(outputs[i], Add(t, m.addend), m.via)] +
        ScanFrom(Without(outputs, i), secret, spend, labels, k + 1)
  }

  function Scan(outputs: seq<int>, scan: Scalar, summary: Summary, spend: Point, labels: Option<Labels>): seq<Found> {
    ScanFrom(outputs, ScannerSecret(summary.hash, scan, summary.sum), spend, labels, 0)
  }

  /** The header's promise: no more outputs are found than there are, nor than BIP352 allows. */
  lemma {:induction false} ScanLength(outputs: seq<int>, secret: Point, spend: Point, labels: Option<Labels>, k: nat)
    ensures |ScanFrom(outputs, secret, spend, labels, k)| <= |outputs|
    ensures k <= 2323 ==> |ScanFrom(outputs, secret, spend, labels, k)| <= 2323 - k
    decreases |outputs|
  {
    hide Add, Matches, FirstMatch, Without;
    var i := FirstMatch(outputs, Add(spend, H.shared(secret, k)), labels);
    if k < K_MAX && i < |outputs| {
      WithoutKeeps(outputs, i);
      ScanLength(Without(outputs, i), secret, spend, labels, k + 1);
    }
  }

  // ------------------------------------------------------------ soundness

  /** `label` answers a point and the tweak it is; a cache holds such pairs. */
  ghost predicate CacheIsTrue(labels: Option<Labels>) {
    labels.Some? ==> forall l :: l in labels.value ==> labels.value[l] == l
  }

  /** A step matches the x of P_k, and of P_k plus each label of the cache, and no other x. */
  lemma MatchesExact(x: int, pk: Point, labels: Option<Labels>)
    requires LiftX(x).Some?
    ensures Matches(x, pk, labels).Some?
            <==> (pk != 0 && X(pk) == x) || (labels.Some? && exists l :: l in labels.value && Reaches(x, pk, l))
  {
    var p := LiftX(x).value;
    LiftXExact(x, p);
    SameX(p, Neg(p));
    AddAssoc(p, Neg(pk), pk);
    AddAssoc(Neg(p), Neg(pk), pk);
    assert Reaches(x, pk, Sub(p, pk)) && Reaches(x, pk, Sub(Neg(p), pk));
    forall l: Point | Reaches(x, pk, l)
      ensures l == Sub(p, pk) || l == Sub(Neg(p), pk)
    {
      SameX(p, Add(pk, l));
      AddAssoc(l, pk, Neg(pk));
    }
  }

  ghost predicate Reaches(x: int, pk: Point, l: Point) {
    Add(pk, l) != 0 && X(Add(pk, l)) == x
  }

  /** What a match says: no label exactly where the output is P_k itself; otherwise one of the cache, with
      its tweak, that takes P_k to the output. */
  lemma MatchNamesItsLabel(x: int, pk: Point, labels: Option<Labels>)
    requires Matches(x, pk, labels).Some?
    ensures var m := Matches(x, pk, labels).value;
            && (m.via.None? <==> pk != 0 && X(pk) == x)
            && (m.via.None? ==> m.addend == 0)
            && (m.via.Some? ==>
                  && labels.Some? && m.via.value in labels.value && m.addend == labels.value[m.via.value]
                  && Reaches(x, pk, m.via.value))
  {
    if LiftX(x).Some? {
      var p := LiftX(x).value;
      LiftXExact(x, p);
      SameX(p, Neg(p));
      AddAssoc(p, Neg(pk), pk);
      AddAssoc(Neg(p), Neg(pk), pk);
    }
  }

  ghost predicate NamesItsLabel(f: Found, t: Scalar, spend: Point, labels: Option<Labels>) {
    match f.via
    case None => f.tweak == t && X(Add(spend, t)) == f.x
    case Some(l) =>
      && labels.Some? && l in labels.value && f.tweak == Add(t, labels.value[l])
      && X(Add(Add(spend, t), l)) == f.x && (X(Add(spend, t)) != f.x || Add(spend, t) == 0)
  }

  lemma FirstNamesItsLabel(outputs: seq<int>, secret: Point, spend: Point, labels: Option<Labels>, k: nat)
    requires ScanFrom(outputs, secret, spend, labels, k) != []
    ensures NamesItsLabel(ScanFrom(outputs, secret, spend, labels, k)[0], H.shared(secret, k), spend, labels)
  {
    var t := H.shared(secret, k);
    var pk := Add(spend, t);
    var i := FirstMatch(outputs, pk, labels);
    assert Add(t, 0) == t;
    hide Add, Matches, FirstMatch, X;
    MatchNamesItsLabel(outputs[i], pk, labels);
  }

  lemma {:induction false} AllNameTheirLabels(outputs: seq<int>, secret: Point, spend: Point, labels: Option<Labels>,
                                              k: nat, m: nat)
    requires m < |ScanFrom(outputs, secret, spend, labels, k)|
    ensures NamesItsLabel(ScanFrom(outputs, secret, spend, labels, k)[m], H.shared(secret, k + m), spend, labels)
    decreases |outputs|
  {
    hide Add, Matches, FirstMatch, NamesItsLabel;
    if m > 0 {
      var i := FirstMatch(outputs, Add(spend, H.shared(secret, k)), labels);
      AllNameTheirLabels(Without(outputs, i), secret, spend, labels, k + 1, m - 1);
      assert k + m == (k + 1) + (m - 1);
    } else {
      FirstNamesItsLabel(outputs, secret, spend, labels, k);
    }
  }

  /** The triple of each answer: the tweak is that of its step, plus its label's where it names one, and
      the label it names is one of the cache and takes that step's key to the output. */
  lemma AnswersNameTheirLabels(outputs: seq<int>, secret: Point, spend: Point, labels: Option<Labels>, k: nat, m: nat)
    requires m < |ScanFrom(outputs, secret, spend, labels, k)|
    ensures var f := ScanFrom(outputs, secret, spend, labels, k)[m];
            var t := H.shared(secret, k + m);
            match f.via
            case None => f.tweak == t && X(Add(spend, t)) == f.x
            case Some(l) =>
              && labels.Some? && l in labels.value && f.tweak == Add(t, labels.value[l])
              && X(Add(Add(spend, t), l)) == f.x && (X(Add(spend, t)) != f.x || Add(spend, t) == 0)
  {
    AllNameTheirLabels(outputs, secret, spend, labels, k, m);
    hide ScanFrom, Add, X;
  }

  lemma MatchedIsSpendable(x: int, pk: Point, labels: Option<Labels>)
    requires CacheIsTrue(labels) && LiftX(x).Some? && Matches(x, pk, labels).Some?
    ensures var q := Add(pk, Matches(x, pk, labels).value.addend); q != 0 && X(q) == x
  {
    var p := LiftX(x).value;
    LiftXExact(x, p);
    SameX(p, Neg(p));
    AddAssoc(p, Neg(pk), pk);
    AddAssoc(Neg(p), Neg(pk), pk);
  }

  /** Every tweak found, added to the spend private key, is a private key for the x it was found with. */
  lemma {:induction false} ScanIsSound(outputs: seq<int>, secret: Point, spend: Scalar, labels: Option<Labels>, k: nat)
    requires CacheIsTrue(labels) && forall x :: x in outputs ==> LiftX(x).Some?
    ensures forall f :: f in ScanFrom(outputs, secret, spend, labels, k) ==>
              f.x in outputs && Add(spend, f.tweak) != 0 && X(Add(spend, f.tweak)) == f.x
    decreases |outputs|
  {
    hide Add, Sub, Neg, Matches, FirstMatch, LiftX, Without, X, CacheIsTrue;
    var t := H.shared(secret, k);
    var pk := Add(spend, t);
    var i := FirstMatch(outputs, pk, labels);
    if k < K_MAX && i < |outputs| && Matches(outputs[i], pk, labels).Some? {
      var m := Matches(outputs[i], pk, labels).value;
      MatchedIsSpendable(outputs[i], pk, labels);
      AddAssoc(spend, t, m.addend);
      WithoutKeeps(outputs, i);
      ScanIsSound(Without(outputs, i), secret, spend, labels, k + 1);
    }
  }

  // ------------------------------------------------------------ completeness

  /** An address of this recipient: its scan key, and its spend key, plain or with a cached label. */
  ghost predicate PaysTo(recipient: Recipient, scan: Scalar, spend: Point, labels: Option<Labels>) {
    recipient.scan == scan
    && (recipient.spend == spend
        || (labels.Some? && exists l :: l in labels.value && recipient.spend == Add(spend, l)))
  }

  lemma CreatedOutputMatches(recipient: Recipient, scan: Scalar, spend: Point, labels: Option<Labels>, t: Scalar)
    requires PaysTo(recipient, scan, spend, labels) && Add(recipient.spend, t) != 0
    ensures Matches(X(Add(recipient.spend, t)), Add(spend, t), labels).Some?
  {
    var q, pk := Add(recipient.spend, t), Add(spend, t);
    LiftOfX(q);
    if recipient.spend != spend {
      var l :| l in labels.value && recipient.spend == Add(spend, l);
      LabelIsTheDifference(spend, l, t);
    }
  }

  lemma LabelIsTheDifference(spend: Point, l: Point, t: Scalar)
    ensures Sub(Add(Add(spend, l), t), Add(spend, t)) == l
  {
    AddAssoc(spend, l, t);
    AddAssoc(spend, t, l);
    AddAssoc(l, Add(spend, t), Neg(Add(spend, t)));
    assert Add(Add(spend, l), t) == Add(l, Add(spend, t));
  }

  /** The scene of a scan: a payment, the whole transaction, one recipient of it. */
  datatype Payment = Payment(recipients: seq<Recipient>, ranks: seq<nat>, created: seq<int>, outputs: seq<int>,
                             scan: Scalar, spend: Point, labels: Option<Labels>, secret: Point)

  ghost predicate Mine(p: Payment, i: nat) {
    i < |p.recipients| && p.recipients[i].scan == p.scan
  }

  /** P_k, as the scanner derives it. */
  function StepPoint(p: Payment, k: nat): Point {
    Add(p.spend, H.shared(p.secret, k))
  }

  /** What the sender derives for this recipient. */
  ghost predicate MadeBySender(p: Payment) {
    && RanksOk(p.recipients, p.ranks) && |p.created| == |p.recipients|
    && forall i: nat :: Mine(p, i) ==>
         var q := Add(p.recipients[i].spend, H.shared(p.secret, p.ranks[i]));
         p.ranks[i] < K_MAX && q != 0 && p.created[i] == X(q)
  }

  /** Every recipient with this scan key is an address of the scanner, and was paid. */
  ghost predicate Addressed(p: Payment)
    requires |p.created| == |p.recipients|
  {
    forall i: nat :: Mine(p, i) ==>
      PaysTo(p.recipients[i], p.scan, p.spend, p.labels) && p.created[i] in p.outputs
  }

  /** The outputs derived for this scan key are distinct. */
  ghost predicate Distinct(p: Payment)
    requires |p.created| == |p.recipients|
  {
    forall i: nat, j: nat :: i < j && Mine(p, i) && Mine(p, j) ==> p.created[i] != p.created[j]
  }

  ghost predicate Paid(p: Payment): (r: bool)
    ensures r ==> |p.created| == |p.recipients| == |p.ranks|
  {
    MadeBySender(p) && Addressed(p) && Distinct(p)
  }

  /** Where an x first stands in the transaction. */
  function FirstAt(outputs: seq<int>, x: int): nat {
    if outputs == [] || outputs[0] == x then 0 else 1 + FirstAt(outputs[1..], x)
  }

  lemma {:induction false} FirstAtExact(outputs: seq<int>, x: int)
    requires x in outputs
    ensures var a := FirstAt(outputs, x);
            a < |outputs| && outputs[a] == x && forall b :: 0 <= b < a ==> outputs[b] != x
  {
    if outputs[0] != x { FirstAtExact(outputs[1..], x); }
  }

  /** The place in the transaction of the output made for recipient i. */
  function Place(p: Payment, i: nat): nat
    requires i < |p.created|
  {
    FirstAt(p.outputs, p.created[i])
  }

  /** The output at place a was made for a recipient of this scan key with a lower k. */
  ghost predicate Earlier(p: Payment, a: nat, k: nat)
    requires |p.created| == |p.recipients| == |p.ranks|
  {
    exists j: nat :: Mine(p, j) && p.ranks[j] < k && Place(p, j) == a
  }

  /** Nothing listed ahead of this output matches at its step, except what the steps before it take. */
  ghost predicate Unobstructed(p: Payment, i: nat)
    requires |p.created| == |p.recipients| == |p.ranks| && i < |p.created|
  {
    forall a: nat :: a < Place(p, i) && a < |p.outputs| ==>
      Matches(p.outputs[a], StepPoint(p, p.ranks[i]), p.labels).Some? ==> Earlier(p, a, p.ranks[i])
  }

  ghost predicate UnobstructedFrom(p: Payment, k: nat)
    requires |p.created| == |p.recipients| == |p.ranks|
  {
    forall i: nat :: Mine(p, i) && p.ranks[i] >= k ==> Unobstructed(p, i)
  }

  /** Each output is the answer of its own step; `found` begins with the answer of step k. */
  ghost predicate FoundInTurn(p: Payment, found: seq<Found>, k: nat)
    requires |p.created| == |p.recipients| == |p.ranks|
  {
    forall i: nat :: Mine(p, i) && p.ranks[i] >= k ==>
      p.ranks[i] - k < |found| && found[p.ranks[i] - k].x == p.created[i]
  }

  /** The places still open at step k: all in order, without those the lower steps took. */
  ghost predicate Open(p: Payment, places: seq<nat>, k: nat): (r: bool)
    requires |p.created| == |p.recipients| == |p.ranks|
    ensures r ==> forall m :: 0 <= m < |places| ==> places[m] < |p.outputs|
  {
    && (forall m :: 0 <= m < |places| ==> places[m] < |p.outputs| && !Earlier(p, places[m], k))
    && (forall m, n :: 0 <= m < n < |places| ==> places[m] < places[n])
    && (forall a: nat :: a < |p.outputs| && !Earlier(p, a, k) ==> a in places)
  }

  function At(outputs: seq<int>, places: seq<nat>): seq<int>
    requires forall m :: 0 <= m < |places| ==> places[m] < |outputs|
  {
    seq(|places|, m requires 0 <= m < |places| => outputs[places[m]])
  }

  lemma PlaceIsOpen(p: Payment, places: seq<nat>, k: nat, j: nat) returns (h: nat)
    requires Paid(p) && Open(p, places, k) && Mine(p, j) && p.ranks[j] == k
    ensures h < |places| && places[h] == Place(p, j) && p.outputs[places[h]] == p.created[j]
    ensures forall a :: 0 <= a < places[h] ==> p.outputs[a] != p.created[j]
  {
    hide Matches, X, PaysTo;
    FirstAtExact(p.outputs, p.created[j]);
    forall i: nat | Mine(p, i) && p.ranks[i] < k
      ensures Place(p, i) != Place(p, j)
    {
      FirstAtExact(p.outputs, p.created[i]);
      assert i != j;
    }
    assert !Earlier(p, Place(p, j), k);
    h :| 0 <= h < |places| && places[h] == Place(p, j);
  }

  lemma CreatedMatchesAtItsStep(p: Payment, j: nat)
    requires Paid(p) && Mine(p, j)
    ensures Matches(p.created[j], StepPoint(p, p.ranks[j]), p.labels).Some?
  {
    hide Matches, X, PaysTo;
    CreatedOutputMatches(p.recipients[j], p.scan, p.spend, p.labels, H.shared(p.secret, p.ranks[j]));
  }

  /** One step takes the output made for it exactly when nothing obstructs that output. */
  lemma StepIsExact(p: Payment, places: seq<nat>, k: nat, j: nat)
    requires Paid(p) && Open(p, places, k) && Mine(p, j) && p.ranks[j] == k
    ensures var rest := At(p.outputs, places);
            var m := FirstMatch(rest, StepPoint(p, k), p.labels);
            && m < |rest| && Matches(rest[m], StepPoint(p, k), p.labels).Some?
            && (rest[m] == p.created[j] <==> Unobstructed(p, j))
            && (rest[m] == p.created[j] ==> places[m] == Place(p, j))
  {
    hide Matches, X, PaysTo, FirstMatch, Place, Paid, StepPoint;
    var rest := At(p.outputs, places);
    FirstMatchExact(rest, StepPoint(p, k), p.labels);
    var h := PlaceIsOpen(p, places, k, j);
    CreatedMatchesAtItsStep(p, j);
    var m := FirstMatch(rest, StepPoint(p, k), p.labels);
    assert rest[h] == p.created[j] && m <= h;
    if rest[m] == p.created[j] {
      assert places[m] == places[h];
      forall a: nat | a < Place(p, j) && Matches(p.outputs[a], StepPoint(p, k), p.labels).Some?
        ensures Earlier(p, a, k)
      {
        forall n | 0 <= n < |places|
          ensures places[n] != a
        {
          if n < m { assert Matches(rest[n], StepPoint(p, k), p.labels).None?; }
        }
      }
    } else {
      assert m != h && p.outputs[places[m]] == rest[m] && !Earlier(p, places[m], k);
    }
  }

  lemma EarlierGrows(p: Payment, k: nat, j: nat, a: nat)
    requires Paid(p) && Mine(p, j) && p.ranks[j] == k
    ensures Earlier(p, a, k + 1) <==> Earlier(p, a, k) || a == Place(p, j)
  {
    hide Place;
    if Earlier(p, a, k + 1) {
      var i: nat :| Mine(p, i) && p.ranks[i] < k + 1 && Place(p, i) == a;
      assert p.ranks[i] == k ==> i == j;
    }
  }

  lemma TakenOut(places: seq<nat>, m: nat)
    requires m < |places| && forall i, j :: 0 <= i < j < |places| ==> places[i] < places[j]
    ensures var after := places[..m] + places[m + 1..];
            && (forall i, j :: 0 <= i < j < |after| ==> after[i] < after[j])
            && forall a :: a in after <==> a in places && a != places[m]
  {
    var after := places[..m] + places[m + 1..];
    forall a | a in places && a != places[m]
      ensures a in after
    {
      var n :| 0 <= n < |places| && places[n] == a;
      assert after[if n < m then n else n - 1] == a;
    }
  }

  lemma OpenAfter(p: Payment, places: seq<nat>, k: nat, j: nat, m: nat)
    requires Paid(p) && Open(p, places, k) && Mine(p, j) && p.ranks[j] == k
    requires m < |places| && places[m] == Place(p, j)
    ensures Open(p, places[..m] + places[m + 1..], k + 1)
  {
    assert j < |p.created|;
    hide Paid, Mine, Earlier, Place;
    var after := places[..m] + places[m + 1..];
    TakenOut(places, m);
    forall a: nat
      ensures Earlier(p, a, k + 1) <==> Earlier(p, a, k) || a == Place(p, j)
    {
      EarlierGrows(p, k, j, a);
    }
    assert forall n :: 0 <= n < |after| ==> after[n] in after;
    assert forall n :: 0 <= n < |places| ==> places[n] in places;
  }

  lemma AtWithout(outputs: seq<int>, places: seq<nat>, m: nat)
    requires m < |places| && forall n :: 0 <= n < |places| ==> places[n] < |outputs|
    ensures var after := places[..m] + places[m + 1..];
            && (forall n :: 0 <= n < |after| ==> after[n] < |outputs|)
            && At(outputs, after) == Without(At(outputs, places), m)
  {}

  lemma RecipientOfRank(p: Payment, i: nat, k: nat) returns (j: nat)
    requires Paid(p) && Mine(p, i) && p.ranks[i] >= k
    ensures j < |p.created| && Mine(p, j) && p.ranks[j] == k && k < K_MAX
  {
    hide Add, Matches, X, PaysTo;
    if p.ranks[i] == k {
      j := i;
    } else {
      assert HasRank(p.recipients, p.ranks, p.recipients[i].scan, k);
      j :| j < |p.ranks| && p.recipients[j].scan == p.scan && p.ranks[j] == k;
    }
  }

  lemma ScanUnfolds(outputs: seq<int>, secret: Point, spend: Point, labels: Option<Labels>, k: nat)
    requires var pk := Add(spend, H.shared(secret, k));
             var m := FirstMatch(outputs, pk, labels);
             k < K_MAX && m < |outputs| && Matches(outputs[m], pk, labels).Some?
    ensures var m := FirstMatch(outputs, Add(spend, H.shared(secret, k)), labels);
            var here := ScanFrom(outputs, secret, spend, labels, k);
            |here| > 0 && here[0].x == outputs[m]
            && here[1..] == ScanFrom(Without(outputs, m), secret, spend, labels, k + 1)
  {
    hide Add, Matches, FirstMatch, Without;
  }

  /** From step k on, over the places still open: every output is the answer of its own step exactly
      when none is obstructed. */
  lemma {:induction false} InTurnFrom(p: Payment, places: seq<nat>, k: nat)
    requires Paid(p) && Open(p, places, k)
    ensures FoundInTurn(p, ScanFrom(At(p.outputs, places), p.secret, p.spend, p.labels, k), k)
            <==> UnobstructedFrom(p, k)
    decreases |places|
  {
    hide Paid, Open, At, Matches, FirstMatch, ScanFrom, Unobstructed, Without;
    if i: nat :| Mine(p, i) && p.ranks[i] >= k {
      var j := RecipientOfRank(p, i, k);
      var rest := At(p.outputs, places);
      var m := FirstMatch(rest, StepPoint(p, k), p.labels);
      StepIsExact(p, places, k, j);
      ScanUnfolds(rest, p.secret, p.spend, p.labels, k);
      AtLength(p.outputs, places);
      if rest[m] == p.created[j] {
        var after := places[..m] + places[m + 1..];
        OpenAfter(p, places, k, j, m);
        AtWithout(p.outputs, places, m);
        InTurnFrom(p, after, k + 1);
        var here := ScanFrom(rest, p.secret, p.spend, p.labels, k);
        OneStep(p, here, k, j);
      }
    }
  }

  lemma AtLength(outputs: seq<int>, places: seq<nat>)
    requires forall m :: 0 <= m < |places| ==> places[m] < |outputs|
    ensures |At(outputs, places)| == |places|
  {}

  lemma OneStep(p: Payment, here: seq<Found>, k: nat, j: nat)
    requires Paid(p) && Mine(p, j) && p.ranks[j] == k && here != [] && here[0].x == p.created[j] && Unobstructed(p, j)
    ensures FoundInTurn(p, here, k) <==> FoundInTurn(p, here[1..], k + 1)
    ensures UnobstructedFrom(p, k) <==> UnobstructedFrom(p, k + 1)
  {
    hide Unobstructed;
    assert forall i: nat :: Mine(p, i) && p.ranks[i] == k ==> i == j;
    assert forall i: nat :: Mine(p, i) && p.ranks[i] >= k && i != j ==> p.ranks[i] >= k + 1;
  }

  /** The exact reach of the scan.  It answers the output of each k at the step of that k, for all of
      them, if and only if none is listed behind another output that matches at its step. */
  lemma FoundInTurnExactly(p: Payment)
    requires Paid(p)
    ensures FoundInTurn(p, ScanFrom(p.outputs, p.secret, p.spend, p.labels, 0), 0)
            <==> forall i: nat :: Mine(p, i) ==> Unobstructed(p, i)
  {
    hide Paid, Unobstructed, ScanFrom;
    AllOpen(p);
    InTurnFrom(p, AllPlaces(p.outputs), 0);
  }

  /** Without a label cache there is no condition: every output of the scan key is answered in turn. */
  lemma WithoutLabelsAllAreFound(p: Payment)
    requires Paid(p) && p.labels.None?
    ensures FoundInTurn(p, ScanFrom(p.outputs, p.secret, p.spend, p.labels, 0), 0)
  {
    hide X, Add, FoundInTurn, ScanFrom;
    forall i: nat, a: nat | Mine(p, i) && a < Place(p, i) && a < |p.outputs|
      ensures Matches(p.outputs[a], StepPoint(p, p.ranks[i]), p.labels).None?
    {
      FirstAtExact(p.outputs, p.created[i]);
    }
    FoundInTurnExactly(p);
  }

  /** The answer of each step matches at that step. */
  lemma {:induction false} AnswersMatch(outputs: seq<int>, secret: Point, spend: Point, labels: Option<Labels>, k: nat,
                                        m: nat)
    requires m < |ScanFrom(outputs, secret, spend, labels, k)|
    ensures var x := ScanFrom(outputs, secret, spend, labels, k)[m].x;
            Matches(x, Add(spend, H.shared(secret, k + m)), labels).Some?
    decreases |outputs|
  {
    hide Add, Matches, FirstMatch;
    if m > 0 {
      var i := FirstMatch(outputs, Add(spend, H.shared(secret, k)), labels);
      AnswersMatch(Without(outputs, i), secret, spend, labels, k + 1, m - 1);
      assert k + m == (k + 1) + (m - 1);
    }
  }

  ghost predicate UnobstructedBelow(p: Payment, i: nat)
    requires |p.created| == |p.recipients| == |p.ranks| && i < |p.created|
  {
    forall j: nat :: Mine(p, j) && p.ranks[j] < p.ranks[i] ==> Unobstructed(p, j)
  }

  /** The answer of step r of the scan is the output made for i. */
  ghost predicate TakenAt(p: Payment, found: seq<Found>, i: nat, r: nat)
    requires |p.created| == |p.recipients| == |p.ranks| && i < |p.created|
  {
    r < |found| && found[r].x == p.created[i]
  }

  /** Where nothing of lower k is obstructed, a step takes its output if and only if that one is not. */
  lemma {:induction false} TakenExactlyFrom(p: Payment, places: seq<nat>, k: nat, i: nat)
    requires Paid(p) && Open(p, places, k) && Mine(p, i) && k <= p.ranks[i] && UnobstructedBelow(p, i)
    ensures TakenAt(p, ScanFrom(At(p.outputs, places), p.secret, p.spend, p.labels, k), i, p.ranks[i] - k)
            <==> Unobstructed(p, i)
    decreases p.ranks[i] - k
  {
    hide Paid, Open, At, Matches, FirstMatch, ScanFrom, Unobstructed, Without, TakenAt, UnobstructedBelow;
    var j := RecipientOfRank(p, i, k);
    StepTakes(p, places, k, j);
    if p.ranks[i] == k {
      SameRank(p, i, j);
    } else {
      BelowIsUnobstructed(p, i, j);
      var m := FirstMatch(At(p.outputs, places), StepPoint(p, k), p.labels);
      OpenAfter(p, places, k, j, m);
      AtWithout(p.outputs, places, m);
      TakenExactlyFrom(p, places[..m] + places[m + 1..], k + 1, i);
      TakenNext(p, ScanFrom(At(p.outputs, places), p.secret, p.spend, p.labels, k), i, p.ranks[i] - k);
    }
  }

  /** What one step answers, and what it leaves to the rest of the scan. */
  lemma StepTakes(p: Payment, places: seq<nat>, k: nat, j: nat)
    requires Paid(p) && Open(p, places, k) && Mine(p, j) && p.ranks[j] == k && k < K_MAX
    ensures var rest := At(p.outputs, places);
            var m := FirstMatch(rest, StepPoint(p, k), p.labels);
            var here := ScanFrom(rest, p.secret, p.spend, p.labels, k);
            && m < |rest| == |places| && here != []
            && here[1..] == ScanFrom(Without(rest, m), p.secret, p.spend, p.labels, k + 1)
            && (TakenAt(p, here, j, 0) <==> Unobstructed(p, j))
            && (Unobstructed(p, j) ==> places[m] == Place(p, j))
  {
    hide Paid, Open, Matches, FirstMatch, ScanFrom, Unobstructed, Without, Place;
    StepIsExact(p, places, k, j);
    ScanUnfolds(At(p.outputs, places), p.secret, p.spend, p.labels, k);
  }

  lemma BelowIsUnobstructed(p: Payment, i: nat, j: nat)
    requires Paid(p) && Mine(p, i) && Mine(p, j) && p.ranks[j] < p.ranks[i] && UnobstructedBelow(p, i)
    ensures Unobstructed(p, j)
  {
    hide Paid, Unobstructed;
  }

  lemma TakenNext(p: Payment, here: seq<Found>, i: nat, r: nat)
    requires |p.created| == |p.recipients| == |p.ranks| && i < |p.created| && r > 0 && here != []
    ensures TakenAt(p, here, i, r) <==> TakenAt(p, here[1..], i, r - 1)
  {}

  lemma SameRank(p: Payment, i: nat, j: nat)
    requires Paid(p) && Mine(p, i) && Mine(p, j)
    ensures p.ranks[i] == p.ranks[j] ==> i == j
  {
    hide Addressed, Distinct;
  }

  /** One output at a time.  Where it matches at no step but its own, it is in the answer if and only
      if its step takes it; and where nothing of lower k is obstructed, if and only if it is not. */
  lemma AnsweredExactly(p: Payment, i: nat)
    requires Paid(p) && Mine(p, i)
    requires forall k: nat :: k != p.ranks[i] ==> Matches(p.created[i], StepPoint(p, k), p.labels).None?
    ensures var found := ScanFrom(p.outputs, p.secret, p.spend, p.labels, 0);
            && ((exists f :: f in found && f.x == p.created[i]) <==> TakenAt(p, found, i, p.ranks[i]))
            && (UnobstructedBelow(p, i) ==>
                  ((exists f :: f in found && f.x == p.created[i]) <==> Unobstructed(p, i)))
  {
    hide Paid, Matches, Unobstructed, UnobstructedBelow, ScanFrom;
    var found := ScanFrom(p.outputs, p.secret, p.spend, p.labels, 0);
    if f :| f in found && f.x == p.created[i] {
      var m :| 0 <= m < |found| && found[m] == f;
      AnswersMatch(p.outputs, p.secret, p.spend, p.labels, 0, m);
      assert Matches(p.created[i], StepPoint(p, m), p.labels).Some?;
    }
    if TakenAt(p, found, i, p.ranks[i]) { assert found[p.ranks[i]] in found; }
    if UnobstructedBelow(p, i) {
      AllOpen(p);
      TakenExactlyFrom(p, AllPlaces(p.outputs), 0, i);
    }
  }

  function AllPlaces(outputs: seq<int>): (places: seq<nat>)
    ensures forall m :: 0 <= m < |places| ==> places[m] < |outputs|
  {
    seq(|outputs|, a => a)
  }

  lemma AllOpen(p: Payment)
    requires Paid(p)
    ensures Open(p, AllPlaces(p.outputs), 0) && At(p.outputs, AllPlaces(p.outputs)) == p.outputs
  {
    hide Paid;
    var places := AllPlaces(p.outputs);
    forall a: nat | a < |p.outputs|
      ensures a in places
    {
      assert places[a] == a;
    }
  }

  /** The failing family: one recipient whose output is listed behind P_0 plus a cached label.  Unless
      it happens to match the next step, it is never answered; with the two the other way round it is. */
  lemma ListedBehindALabelIsLost(scan: Scalar, spend: Point, l: Point, secret: Point)
    requires var pk := Add(spend, H.shared(secret, 0));
             pk != 0 && Add(pk, l) != 0 && X(Add(pk, l)) != X(pk)
    requires Matches(X(Add(spend, H.shared(secret, 0))), Add(spend, H.shared(secret, 1)), Some(map[l := l])).None?
    ensures var pk := Add(spend, H.shared(secret, 0));
            var labels := Some(map[l := l]);
            var lost := OnePayment(scan, spend, labels, secret, [X(Add(pk, l)), X(pk)]);
            var kept := OnePayment(scan, spend, labels, secret, [X(pk), X(Add(pk, l))]);
            && Paid(lost) && !Unobstructed(lost, 0)
            && (forall f :: f in ScanFrom(lost.outputs, secret, spend, labels, 0) ==> f.x != X(pk))
            && Paid(kept) && Unobstructed(kept, 0)
            && FoundInTurn(kept, ScanFrom(kept.outputs, secret, spend, labels, 0), 0)
  {
    var labels: Option<Labels> := Some(map[l := l]);
    var pk := Add(spend, H.shared(secret, 0));
    CreatedOutputMatches(Recipient(scan, Add(spend, l)), scan, spend, labels, H.shared(secret, 0));
    SwapTerms(spend, l, H.shared(secret, 0));
    hide Matches, X, Unobstructed;
    OneIsPaid(scan, spend, labels, secret, [X(Add(pk, l)), X(pk)]);
    OneIsPaid(scan, spend, labels, secret, [X(pk), X(Add(pk, l))]);
    OneIsObstructed(scan, spend, labels, secret, X(Add(pk, l)));
    SecondIsLost([X(Add(pk, l)), X(pk)], secret, spend, labels);
    FoundInTurnExactly(OnePayment(scan, spend, labels, secret, [X(pk), X(Add(pk, l))]));
  }

  lemma OneIsObstructed(scan: Scalar, spend: Point, labels: Option<Labels>, secret: Point, other: int)
    requires var pk := Add(spend, H.shared(secret, 0)); X(pk) != other && Matches(other, pk, labels).Some?
    ensures var x := X(Add(spend, H.shared(secret, 0)));
            !Unobstructed(OnePayment(scan, spend, labels, secret, [other, x]), 0)
            && Unobstructed(OnePayment(scan, spend, labels, secret, [x, other]), 0)
  {
    hide Matches, X;
    var x := X(Add(spend, H.shared(secret, 0)));
    var behind := OnePayment(scan, spend, labels, secret, [other, x]);
    assert [other, x][1..] == [x] && FirstAt([x], x) == 0;
    assert behind.outputs[0] == other && !Earlier(behind, 0, 0);
  }

  lemma SecondIsLost(outputs: seq<int>, secret: Point, spend: Point, labels: Option<Labels>)
    requires |outputs| == 2 && outputs[0] != outputs[1]
    requires Matches(outputs[0], Add(spend, H.shared(secret, 0)), labels).Some?
    requires Matches(outputs[1], Add(spend, H.shared(secret, 1)), labels).None?
    ensures forall f :: f in ScanFrom(outputs, secret, spend, labels, 0) ==> f.x != outputs[1]
  {
    hide Add, Matches;
    ScanUnfolds(outputs, secret, spend, labels, 0);
    assert Without(outputs, 0) == [outputs[1]];
    assert [outputs[1]][1..] == [];
    assert ScanFrom([outputs[1]], secret, spend, labels, 1) == [];
    var found := ScanFrom(outputs, secret, spend, labels, 0);
    assert found == [found[0]] + found[1..];
  }

  lemma SwapTerms(a: Scalar, b: Scalar, c: Scalar)
    ensures Add(Add(a, b), c) == Add(Add(a, c), b)
  {
    AddAssoc(a, b, c);
    AddAssoc(a, c, b);
  }

  /** One recipient at the plain address of the scanner. */
  function OnePayment(scan: Scalar, spend: Point, labels: Option<Labels>, secret: Point, outputs: seq<int>): Payment {
    Payment([Recipient(scan, spend)], [0], [X(Add(spend, H.shared(secret, 0)))], outputs, scan, spend, labels, secret)
  }

  lemma OneIsPaid(scan: Scalar, spend: Point, labels: Option<Labels>, secret: Point, outputs: seq<int>)
    requires Add(spend, H.shared(secret, 0)) != 0 && X(Add(spend, H.shared(secret, 0))) in outputs
    ensures Paid(OnePayment(scan, spend, labels, secret, outputs))
  {}

  /** The payment a sender's call makes, seen by one scan key. */
  function PaymentOf(recipients: seq<Recipient>, ranks: seq<nat>, outpoint: Octets, taproot: seq<Scalar>,
                     plain: seq<Scalar>, outputs: seq<int>, scan: Scalar, spend: Point,
                     labels: Option<Labels>): Payment
    requires |ranks| == |recipients| && CreateOutputs(recipients, ranks, outpoint, taproot, plain).Some?
  {
    var sum := SecretSum(taproot, plain);
    Payment(recipients, ranks, CreateOutputs(recipients, ranks, outpoint, taproot, plain).value, outputs,
            scan, spend, labels, SenderSecret(H.inputs(outpoint, sum), sum, scan))
  }

  lemma SenderMakes(recipients: seq<Recipient>, ranks: seq<nat>, outpoint: Octets, taproot: seq<Scalar>,
                    plain: seq<Scalar>, outputs: seq<int>, scan: Scalar, spend: Point, labels: Option<Labels>)
    requires RanksOk(recipients, ranks) && CreateOutputs(recipients, ranks, outpoint, taproot, plain).Some?
    ensures MadeBySender(PaymentOf(recipients, ranks, outpoint, taproot, plain, outputs, scan, spend, labels))
  {
    var sum := SecretSum(taproot, plain);
    var p := PaymentOf(recipients, ranks, outpoint, taproot, plain, outputs, scan, spend, labels);
    forall j: nat | Mine(p, j)
      ensures var q := Add(p.recipients[j].spend, H.shared(p.secret, p.ranks[j]));
              p.ranks[j] < K_MAX && q != 0 && p.created[j] == X(q)
    {
      assert OutputPoint(recipients[j], ranks[j], H.inputs(outpoint, sum), sum)
             == Add(p.recipients[j].spend, H.shared(p.secret, p.ranks[j]));
    }
  }

  /** Completeness, from the sender's keys to the scanner's answer: of a transaction that carries the
      outputs made for its scan key, the scanner answers each at the step of its k if and only if none
      of them is listed behind another output that matches there. */
  lemma EveryOutputIsFound(recipients: seq<Recipient>, ranks: seq<nat>, outpoint: Octets, taproot: seq<Scalar>,
                           plain: seq<Scalar>, xonly: seq<Point>, outputs: seq<int>, scan: Scalar, spend: Point,
                           labels: Option<Labels>)
    requires RanksOk(recipients, ranks) && AreXOnlyKeysOf(xonly, taproot)
    requires CreateOutputs(recipients, ranks, outpoint, taproot, plain).Some?
    requires var p := PaymentOf(recipients, ranks, outpoint, taproot, plain, outputs, scan, spend, labels);
             Addressed(p) && Distinct(p)
    ensures var p := PaymentOf(recipients, ranks, outpoint, taproot, plain, outputs, scan, spend, labels);
            var summary := PrevoutsSummary(outpoint, xonly, plain);
            && summary.Some?
            && (FoundInTurn(p, Scan(outputs, scan, summary.value, spend, labels), 0)
                <==> forall i: nat :: Mine(p, i) ==> Unobstructed(p, i))
  {
    hide Addressed, Distinct, Unobstructed, FoundInTurn, ScanFrom, RanksOk;
    var sum := SecretSum(taproot, plain);
    SidesAgreeOnTheSum(outpoint, xonly, taproot, plain);
    SharedSecret(H.inputs(outpoint, sum), sum, scan);
    SenderMakes(recipients, ranks, outpoint, taproot, plain, outputs, scan, spend, labels);
    FoundInTurnExactly(PaymentOf(recipients, ranks, outpoint, taproot, plain, outputs, scan, spend, labels));
  }

  // ------------------------------------------------------------ labels

  /** `label`: a point, and the tweak that is its discrete logarithm. */
  function Label(scan: Scalar, m: nat): (Point, Scalar) {
    (H.labelTweak(scan, m), H.labelTweak(scan, m))
  }

  /** `labeled_spend_pubkey`. */
  function LabeledSpend(spend: Point, point: Point): Option<Point> {
    var labeled := Add(spend, point);
    if labeled == 0 then None else Some(labeled)
  }

  /** A label takes the spend key to the labeled one, and there is none where they cancel. */
  lemma LabeledSpendExact(spend: Point, point: Point, labeled: Point)
    ensures LabeledSpend(spend, point) == Some(labeled) <==> labeled != 0 && Sub(labeled, spend) == point
    ensures LabeledSpend(spend, point).None? <==> point == Neg(spend)
  {
    AddAssoc(point, spend, Neg(spend));
    AddAssoc(labeled, Neg(spend), spend);
  }

  /** The label cache of a recipient that published these labels. */
  function LabelCache(scan: Scalar, ms: seq<nat>): Labels {
    if ms == [] then map[]
    else
      var (point, tweak) := Label(scan, ms[|ms| - 1]);
      LabelCache(scan, ms[..|ms| - 1])[point := tweak]
  }

  lemma {:induction false} LabelCacheHolds(scan: Scalar, ms: seq<nat>)
    ensures CacheIsTrue(Some(LabelCache(scan, ms)))
    ensures forall l :: l in LabelCache(scan, ms) <==> exists m :: m in ms && l == H.labelTweak(scan, m)
    ensures forall m :: m in ms ==> Label(scan, m).0 in LabelCache(scan, ms)
  {
    if ms != [] {
      var rest := ms[..|ms| - 1];
      LabelCacheHolds(scan, rest);
      assert ms == rest + [ms[|ms| - 1]];
    }
  }

  /** An address the recipient published: its spend key as it is, or under one of its labels. */
  ghost predicate Published(recipient: Recipient, scan: Scalar, spend: Point, ms: seq<nat>) {
    recipient.scan == scan
    && (recipient.spend == spend
        || exists m :: m in ms && LabeledSpend(spend, Label(scan, m).0) == Some(recipient.spend))
  }

  lemma PublishedPays(recipient: Recipient, scan: Scalar, spend: Point, ms: seq<nat>)
    requires Published(recipient, scan, spend, ms)
    ensures PaysTo(recipient, scan, spend, Some(LabelCache(scan, ms)))
  {
    LabelCacheHolds(scan, ms);
    if recipient.spend != spend {
      var m :| m in ms && LabeledSpend(spend, Label(scan, m).0) == Some(recipient.spend);
      assert recipient.spend == Add(spend, Label(scan, m).0);
    }
  }

  /** Both together, for published addresses: each output made for them is answered at its step, with
      a tweak that added to the spend private key is a private key for it, if and only if none of them
      is obstructed. */
  lemma EveryPaymentIsSpendable(recipients: seq<Recipient>, ranks: seq<nat>, outpoint: Octets, taproot: seq<Scalar>,
                                plain: seq<Scalar>, xonly: seq<Point>, outputs: seq<int>, scan: Scalar, spend: Scalar,
                                ms: seq<nat>)
    requires RanksOk(recipients, ranks) && AreXOnlyKeysOf(xonly, taproot)
    requires CreateOutputs(recipients, ranks, outpoint, taproot, plain).Some?
    requires forall j :: 0 <= j < |recipients| && recipients[j].scan == scan ==>
      Published(recipients[j], scan, spend, ms)
    requires forall x :: x in CreateOutputs(recipients, ranks, outpoint, taproot, plain).value ==> x in outputs
    requires forall x :: x in outputs ==> LiftX(x).Some?
    requires Distinct(PaymentOf(recipients, ranks, outpoint, taproot, plain, outputs, scan, spend,
                                Some(LabelCache(scan, ms))))
    ensures var labels := Some(LabelCache(scan, ms));
            var p := PaymentOf(recipients, ranks, outpoint, taproot, plain, outputs, scan, spend, labels);
            var summary := PrevoutsSummary(outpoint, xonly, plain);
            && summary.Some?
            && (SpendableInTurn(p, Scan(outputs, scan, summary.value, spend, labels))
                <==> forall i: nat :: Mine(p, i) ==> Unobstructed(p, i))
  {
    hide Add, Matches, LiftX, X, Scan, SecretSum, PaysTo, Published, CacheIsTrue, Distinct, Unobstructed, RanksOk;
    var labels := Some(LabelCache(scan, ms));
    var p := PaymentOf(recipients, ranks, outpoint, taproot, plain, outputs, scan, spend, labels);
    forall j: nat | Mine(p, j)
      ensures PaysTo(recipients[j], scan, spend, labels) && p.created[j] in outputs
    {
      PublishedPays(recipients[j], scan, spend, ms);
    }
    EveryOutputIsFound(recipients, ranks, outpoint, taproot, plain, xonly, outputs, scan, spend, labels);
    LabelCacheHolds(scan, ms);
    ScannedIsSpendable(outputs, scan, PrevoutsSummary(outpoint, xonly, plain).value, spend, labels);
  }

  /** Each output is answered at its own step, with a tweak that spends it. */
  ghost predicate SpendableInTurn(p: Payment, found: seq<Found>)
    requires |p.created| == |p.recipients| == |p.ranks|
  {
    forall i: nat :: Mine(p, i) ==>
      && p.ranks[i] < |found| && found[p.ranks[i]].x == p.created[i]
      && Add(p.spend, found[p.ranks[i]].tweak) != 0
      && X(Add(p.spend, found[p.ranks[i]].tweak)) == p.created[i]
  }

  lemma ScannedIsSpendable(outputs: seq<int>, scan: Scalar, summary: Summary, spend: Scalar, labels: Option<Labels>)
    requires CacheIsTrue(labels) && forall x :: x in outputs ==> LiftX(x).Some?
    ensures forall f :: f in Scan(outputs, scan, summary, spend, labels) ==>
              f.x in outputs && Add(spend, f.tweak) != 0 && X(Add(spend, f.tweak)) == f.x
  {
    ScanIsSound(outputs, ScannerSecret(summary.hash, scan, summary.sum), spend, labels, 0);
  }
}
