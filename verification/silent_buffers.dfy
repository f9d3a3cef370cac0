/** The heap half of Silent Payments: the key buffers, the found outputs and the label cache, all of
    them overwritten whichever element of whichever list raised. */
module SilentBuffers {
  import opened Results
  import opened Group
  import opened Memory
  import opened SilentPayments

  /** How many buffers a list of keys gets before one is refused, the refused one's included. */
  function Built(keys: seq<int>, accepted: int -> bool): nat {
    if keys == [] then 0
    else if accepted(keys[0]) then 1 + Built(keys[1..], accepted)
    else 1
  }

  predicate All(keys: seq<int>, accepted: int -> bool) {
    forall i :: 0 <= i < |keys| ==> accepted(keys[i])
  }

  lemma {:induction false} BuiltIs(keys: seq<int>, accepted: int -> bool, i: nat)
    requires i <= |keys| && forall j :: 0 <= j < i ==> accepted(keys[j])
    ensures i < |keys| && !accepted(keys[i]) ==> Built(keys, accepted) == i + 1
    ensures i == |keys| ==> Built(keys, accepted) == i
  {
    if i > 0 {
      assert accepted(keys[0]);
      forall j | 0 <= j < i - 1
        ensures accepted(keys[1..][j])
      {
        assert keys[1..][j] == keys[j + 1];
      }
      BuiltIs(keys[1..], accepted, i - 1);
    }
  }

  /** The buffers hold these keys in their first cells. */
  ghost predicate Hold(buffers: seq<array<int>>, keys: seq<int>)
    reads set b | b in buffers
  {
    |buffers| == |keys| && forall i :: 0 <= i < |keys| ==> buffers[i].Length > 0 && buffers[i][0] == keys[i]
  }

  /** `list.extend` over a generator of buffers: it stops where a key is refused, with the buffers of
      the keys before it in the list and the refused one, still empty, in none. */
  method BuildAll(arena: Arena, keys: seq<ScalarArg>, pairs: bool)
    returns (buffers: seq<array<int>>, refused: bool)
    modifies arena
    ensures AllKept(keys)
    ensures var accepted := if pairs then IsSecretKey else Fits;
      && (refused <==> !All(ValuesOf(keys), accepted))
      && |arena.owned| == |old(arena.owned)| + Built(ValuesOf(keys), accepted)
    ensures old(arena.owned) + buffers <= arena.owned
    ensures |old(arena.owned)| + |buffers| + (if refused then 1 else 0) == |arena.owned|
    ensures forall i :: 0 <= i < |buffers| ==> fresh(buffers[i])
    ensures refused ==> var last := arena.owned[|arena.owned| - 1]; fresh(last) && last !in buffers && AllZero(last)
    ensures !refused ==> Hold(buffers, ValuesOf(keys))
  {
    hide Built, Fits, IsSecretKey;
    ghost var accepted := if pairs then IsSecretKey else Fits;
    ghost var values := ValuesOf(keys);
    buffers := [];
    for i := 0 to |keys|
      invariant arena.owned == old(arena.owned) + buffers
      invariant ValuesOf(keys) == values
      invariant forall j :: 0 <= j < i ==> accepted(values[j])
      invariant forall j :: 0 <= j < |buffers| ==> fresh(buffers[j])
      invariant Hold(buffers, values[..i])
    {
      BuiltIs(values, accepted, i);
      var buffer := BuildOne(arena, keys[i], pairs);
      KeptValues(keys);
      assert values[i] == ValueOf(keys[i]);
      if buffer.Raised? {
        assert !accepted(values[i]);
        return buffers, true;
      }
      buffers := buffers + [buffer.value];
    }
    assert values[..|keys|] == values;
    BuiltIs(values, accepted, |keys|);
    refused := false;
  }

  method BuildOne(arena: Arena, key: ScalarArg, pairs: bool) returns (r: Result<array<int>>)
    modifies arena
    ensures |arena.owned| == |old(arena.owned)| + 1 && old(arena.owned) <= arena.owned
    ensures fresh(arena.owned[|old(arena.owned)|])
    ensures Kept(key)
    ensures r == if (if pairs then IsSecretKey else Fits)(ValueOf(key)) then Ok(arena.owned[|old(arena.owned)|])
                 else Raised(ValueError)
    ensures r.Ok? ==> r.value.Length > 0 && r.value[0] == ValueOf(key)
    ensures r.Raised? ==> AllZero(arena.owned[|old(arena.owned)|])
  {
    if pairs {
      r := Keypair(arena, key);
    } else {
      r := ScalarBuffer(arena, key);
    }
    assert r.Ok? ==> r.value[..][0] == ValueOf(key);
  }

  method ReadAll(buffers: seq<array<int>>) returns (keys: seq<int>)
    requires forall i :: 0 <= i < |buffers| ==> buffers[i].Length > 0
    ensures Hold(buffers, keys)
  {
    keys := [];
    for i := 0 to |buffers|
      invariant |keys| == i && forall j :: 0 <= j < i ==> buffers[j][0] == keys[j]
    {
      keys := keys + [buffers[i][0]];
    }
  }

  function SenderAnswer(recipients: seq<Recipient>, ranks: seq<nat>, outpoint: Octets, taproot: seq<int>,
                        plain: seq<int>): Result<seq<int>>
    requires |ranks| == |recipients|
  {
    if All(taproot, IsSecretKey) && All(plain, IsSecretKey)
       && CreateOutputs(recipients, ranks, outpoint, taproot, plain).Some?
    then Ok(CreateOutputs(recipients, ranks, outpoint, taproot, plain).value)
    else Raised(ValueError)
  }

  /** The C call, over the buffers it is pointed at. */
  method SenderCall(recipients: seq<Recipient>, ranks: seq<nat>, outpoint: Octets, keypairs: seq<array<int>>,
                    seckeys: seq<array<int>>, ghost taproot: seq<int>, ghost plain: seq<int>)
    returns (r: Result<seq<int>>)
    requires |ranks| == |recipients| && Hold(keypairs, taproot) && Hold(seckeys, plain)
    ensures r == SenderAnswer(recipients, ranks, outpoint, taproot, plain)
  {
    var a := ReadAll(keypairs);
    var b := ReadAll(seckeys);
    assert a == taproot && b == plain;
    r := SenderAnswer(recipients, ranks, outpoint, a, b);
  }

  predicate SenderRefuses(recipients: seq<Recipient>, outpoint: Octets, noKeys: bool) {
    recipients == [] || noKeys || |outpoint| != 36
  }

  /** Both lists, the second only where the first was accepted whole. */
  method BuildBoth(arena: Arena, taproot: seq<ScalarArg>, plain: seq<ScalarArg>)
    returns (keypairs: seq<array<int>>, seckeys: seq<array<int>>, refused: bool)
    modifies arena
    ensures AllKept(taproot) && AllKept(plain)
    ensures refused <==> !(All(ValuesOf(taproot), IsSecretKey) && All(ValuesOf(plain), Fits))
    ensures |arena.owned| - |old(arena.owned)| == BuiltBoth(ValuesOf(taproot), ValuesOf(plain))
    ensures old(arena.owned) + (keypairs + seckeys) <= arena.owned
    ensures |old(arena.owned)| + |keypairs + seckeys| + (if refused then 1 else 0) == |arena.owned|
    ensures forall i :: 0 <= i < |keypairs + seckeys| ==> fresh((keypairs + seckeys)[i])
    ensures refused ==>
      var last := arena.owned[|arena.owned| - 1]; fresh(last) && last !in keypairs + seckeys && AllZero(last)
    ensures !refused ==> Hold(keypairs, ValuesOf(taproot)) && Hold(seckeys, ValuesOf(plain))
  {
    hide Built, All, ValuesOf, IsSecretKey, Fits;
    seckeys := [];
    ghost var tapped, plains := ValuesOf(taproot), ValuesOf(plain);
    keypairs, refused := BuildAll(arena, taproot, true);
    KeptValues(taproot);
    KeptValues(plain);
    if !refused {
      seckeys, refused := BuildAll(arena, plain, false);
      KeptValues(taproot);
      KeptValues(plain);
    }
  }

  function BuiltBoth(taproot: seq<int>, plain: seq<int>): nat {
    Built(taproot, IsSecretKey) + (if All(taproot, IsSecretKey) then Built(plain, Fits) else 0)
  }

  /** The `finally`: everything in the lists, which is everything that holds anything. */
  twostate lemma WipedIsClean(arena: Arena, new lists: seq<array<int>>)
    requires old(arena.owned) + lists <= arena.owned
    requires forall i :: 0 <= i < |lists| ==> fresh(lists[i]) && AllZero(lists[i])
    requires forall i :: |old(arena.owned)| + |lists| <= i < |arena.owned| ==>
      fresh(arena.owned[i]) && AllZero(arena.owned[i])
    ensures LeavesOnlyZeros(arena)
  {
    forall i | |old(arena.owned)| <= i < |old(arena.owned)| + |lists|
      ensures arena.owned[i] == lists[i - |old(arena.owned)|]
    {
      assert arena.owned[i] == (old(arena.owned) + lists)[i];
    }
  }

  /** `_create_outputs_`: which of the two lists raises, and where, decides how many buffers there
      were; all of them are zero on every exit, and memory the caller handed its keys in, however often
      and in whichever list, holds them still. */
  method CreateOutputsChecked(arena: Arena, recipients: seq<Recipient>, ranks: seq<nat>, outpoint: Octets,
                              taproot: seq<ScalarArg>, plain: seq<ScalarArg>) returns (r: Result<seq<int>>)
    requires |ranks| == |recipients|
    modifies arena
    ensures LeavesOnlyZeros(arena) && AllKept(taproot) && AllKept(plain)
    ensures var a, b := ValuesOf(taproot), ValuesOf(plain);
      && (r.Raised? ==> r.error == ValueError)
      && (r.Ok? <==> && recipients != [] && a + b != [] && |outpoint| == 36
                     && (forall i :: 0 <= i < |a| ==> 0 < a[i] < C.n) && (forall i :: 0 <= i < |b| ==> 0 < b[i] < C.n)
                     && CreateOutputs(recipients, ranks, outpoint, a, b).Some?)
      && (r.Ok? ==> Some(r.value) == CreateOutputs(recipients, ranks, outpoint, a, b))
    ensures |arena.owned| - |old(arena.owned)|
            == if recipients == [] || taproot == [] == plain || |outpoint| != 36 then 0
               else BuiltBoth(ValuesOf(taproot), ValuesOf(plain))
  {
    if SenderRefuses(recipients, outpoint, taproot == [] == plain) { return Raised(ValueError); }
    SenderAnswerExact(recipients, ranks, outpoint, ValuesOf(taproot), ValuesOf(plain));
    hide CreateOutputs, SenderAnswer, BuiltBoth, ValuesOf;
    r := CreateAndWipe(arena, recipients, ranks, outpoint, taproot, plain);
  }

  /** From the `try` on. */
  method CreateAndWipe(arena: Arena, recipients: seq<Recipient>, ranks: seq<nat>, outpoint: Octets,
                       taproot: seq<ScalarArg>, plain: seq<ScalarArg>) returns (r: Result<seq<int>>)
    requires |ranks| == |recipients|
    modifies arena
    ensures LeavesOnlyZeros(arena) && AllKept(taproot) && AllKept(plain)
    ensures ValuesOf(taproot) == old(ValuesOf(taproot)) && ValuesOf(plain) == old(ValuesOf(plain))
    ensures r == SenderAnswer(recipients, ranks, outpoint, ValuesOf(taproot), ValuesOf(plain))
    ensures |arena.owned| - |old(arena.owned)| == BuiltBoth(ValuesOf(taproot), ValuesOf(plain))
  {
    ghost var tapped, plains := ValuesOf(taproot), ValuesOf(plain);
    var keypairs, seckeys, refused := BuildBoth(arena, taproot, plain);
    KeptValues(taproot);
    KeptValues(plain);
    if refused {
      r := Raised(ValueError);
      RefusedAnswer(recipients, ranks, outpoint, tapped, plains);
    } else {
      r := SenderCall(recipients, ranks, outpoint, keypairs, seckeys, tapped, plains);
    }
    WipeAll(keypairs + seckeys);
    WipedIsClean(arena, keypairs + seckeys);
    KeptValues(taproot);
    KeptValues(plain);
  }

  lemma SenderAnswerExact(recipients: seq<Recipient>, ranks: seq<nat>, outpoint: Octets, a: seq<int>, b: seq<int>)
    requires |ranks| == |recipients|
    ensures var r := SenderAnswer(recipients, ranks, outpoint, a, b);
            && (r.Raised? ==> r.error == ValueError)
            && (r.Ok? <==> && (forall i :: 0 <= i < |a| ==> 0 < a[i] < C.n)
                           && (forall i :: 0 <= i < |b| ==> 0 < b[i] < C.n)
                           && CreateOutputs(recipients, ranks, outpoint, a, b).Some?)
            && (r.Ok? ==> Some(r.value) == CreateOutputs(recipients, ranks, outpoint, a, b))
  {
    hide CreateOutputs;
  }

  lemma RefusedAnswer(recipients: seq<Recipient>, ranks: seq<nat>, outpoint: Octets, taproot: seq<int>,
                      plain: seq<int>)
    requires |ranks| == |recipients| && !(All(taproot, IsSecretKey) && All(plain, Fits))
    ensures SenderAnswer(recipients, ranks, outpoint, taproot, plain) == Raised(ValueError)
  {}

  // ------------------------------------------------------------ the scanner's side

  /** An item of the caller's mapping: whether its label is 33 octets, whether its tweak is 32, and
      then any 32. */
  datatype LabelItem = LabelItem(point: Point, tweak: Word, labelOk: bool, tweakOk: bool)

  /** A mapping keyed on bytes yields each label once. */
  predicate IsMapping(items: seq<LabelItem>) {
    forall i, j :: 0 <= i < j < |items| && items[i].labelOk && items[j].labelOk ==> items[i].point != items[j].point
  }

  predicate IsFine(item: LabelItem) {
    item.labelOk && item.tweakOk
  }

  predicate WellFormed(items: seq<LabelItem>) {
    forall i :: 0 <= i < |items| ==> IsFine(items[i])
  }

  /** How many items come before the first that is refused. */
  function Filled(items: seq<LabelItem>): nat {
    if items == [] || !IsFine(items[0]) then 0 else 1 + Filled(items[1..])
  }

  lemma {:induction false} FilledIs(items: seq<LabelItem>, i: nat)
    requires i <= |items| && (forall j :: 0 <= j < i ==> IsFine(items[j])) && (i < |items| ==> !IsFine(items[i]))
    ensures Filled(items) == i
  {
    if i > 0 {
      forall j | 0 <= j < i - 1
        ensures IsFine(items[1..][j])
      {
        assert items[1..][j] == items[j + 1];
      }
      FilledIs(items[1..], i - 1);
    }
  }

  lemma {:induction false} FilledExact(items: seq<LabelItem>)
    ensures var n := Filled(items);
            n <= |items| && (forall j :: 0 <= j < n ==> IsFine(items[j])) && (n < |items| ==> !IsFine(items[n]))
  {
    if items != [] && IsFine(items[0]) {
      FilledExact(items[1..]);
      forall j | 0 <= j < Filled(items)
        ensures IsFine(items[j])
      {
        if j > 0 { assert items[1..][j - 1] == items[j]; }
      }
    }
  }

  /** The tweak copied beside a label that is then refused, in a buffer that reaches no cache. */
  function Stray(items: seq<LabelItem>): seq<int> {
    var n := Filled(items);
    if n < |items| && items[n].tweakOk then [items[n].tweak] else []
  }

  /** A caller whose labels are all of 33 octets strands no tweak, however its tweaks are refused. */
  lemma GoodLabelsStrandNothing(items: seq<LabelItem>)
    requires forall i :: 0 <= i < |items| ==> items[i].labelOk
    ensures Stray(items) == []
  {
    FilledExact(items);
  }

  /** The cache as `_lookup` answers from it. */
  function CacheOf(items: seq<LabelItem>): map<Point, Word> {
    if items == [] then map[]
    else CacheOf(items[..|items| - 1])[items[|items| - 1].point := items[|items| - 1].tweak]
  }

  /** Each label with its own tweak, and no other label. */
  lemma {:induction false} CacheOfExact(items: seq<LabelItem>)
    requires forall i, j :: 0 <= i < j < |items| ==> items[i].point != items[j].point
    ensures forall l :: l in CacheOf(items) <==> exists i :: 0 <= i < |items| && items[i].point == l
    ensures forall i :: 0 <= i < |items| ==>
      items[i].point in CacheOf(items) && CacheOf(items)[items[i].point] == items[i].tweak
  {
    if items != [] {
      var rest, last := items[..|items| - 1], items[|items| - 1];
      CacheOfExact(rest);
      assert items == rest + [last];
      assert forall i :: 0 <= i < |rest| ==> rest[i] == items[i];
    }
  }

  /** The tweaks are scalars, as those `label` answers are. */
  predicate ScalarTweaks(items: seq<LabelItem>) {
    forall i :: 0 <= i < |items| ==> items[i].tweak < C.n
  }

  function LabelsOf(cache: map<Point, Word>): Labels
    requires forall l :: l in cache ==> cache[l] < C.n
  {
    map l | l in cache :: cache[l]
  }

  lemma {:induction false} CacheOfScalars(items: seq<LabelItem>)
    requires ScalarTweaks(items)
    ensures forall l :: l in CacheOf(items) ==> CacheOf(items)[l] < C.n
  {
    if items != [] { CacheOfScalars(items[..|items| - 1]); }
  }

  function TweaksOf(items: seq<LabelItem>): seq<int> {
    seq(|items|, i requires 0 <= i < |items| => items[i].tweak)
  }

  /** `_fill_label_cache`: one buffer an item, up to the first that is refused.  An assignment to a
      subscript evaluates its right-hand side first, so the tweak is copied before the label is looked
      at, and a label then refused leaves that copy outside the cache. */
  method FillLabelCache(arena: Arena, items: seq<LabelItem>)
    returns (buffers: seq<array<int>>, refused: bool, ghost stray: seq<array<int>>)
    modifies arena
    ensures arena.owned == old(arena.owned) + buffers + stray
    ensures forall i :: 0 <= i < |buffers| ==> fresh(buffers[i]) && (stray != [] ==> buffers[i] != stray[0])
    ensures |buffers| == Filled(items) && (refused <==> !WellFormed(items))
    ensures Strayed(stray, Stray(items)) && (stray != [] ==> fresh(stray[0]))
    ensures !refused ==> Hold(buffers, TweaksOf(items)) && stray == []
  {
    buffers, stray := [], [];
    for i := 0 to |items|
      invariant arena.owned == old(arena.owned) + buffers
      invariant forall j :: 0 <= j < i ==> IsFine(items[j])
      invariant forall j :: 0 <= j < |buffers| ==> fresh(buffers[j]) && allocated(buffers[j])
      invariant Hold(buffers, TweaksOf(items)[..i])
    {
      if !items[i].tweakOk {
        FilledIs(items, i);
        return buffers, true, [];
      }
      var buffer := arena.New([items[i].tweak]);
      assert buffer[..][0] == items[i].tweak;
      if !items[i].labelOk {
        FilledIs(items, i);
        return buffers, true, [buffer];
      }
      buffers := buffers + [buffer];
    }
    FilledIs(items, |items|);
    assert TweaksOf(items)[..|items|] == TweaksOf(items);
    refused := false;
  }

  /** At most one buffer, of one cell, holding what it was made to hold. */
  ghost predicate Strayed(stray: seq<array<int>>, tweak: seq<int>)
    reads stray
  {
    |stray| == |tweak| && |tweak| <= 1 && (stray != [] ==> stray[0][..] == tweak)
  }

  /** `_lookup`: what the callback answers for each label, read through the cached buffers. */
  method LookupCache(items: seq<LabelItem>, buffers: seq<array<int>>) returns (labels: map<Point, Word>)
    requires Hold(buffers, TweaksOf(items))
    ensures labels == CacheOf(items)
  {
    labels := map[];
    for i := 0 to |items|
      invariant labels == CacheOf(items[..i])
    {
      assert items[..i + 1][..i] == items[..i];
      assert buffers[i][0] == TweaksOf(items)[i];
      labels := labels[items[i].point := buffers[i][0]];
    }
    assert items[..|items|] == items;
  }

  /** The structs the C call writes its answers to: tweak, x, and the label plus one or zero. */
  method NewFound(arena: Arena, n: nat) returns (found: seq<array<int>>)
    modifies arena
    ensures arena.owned == old(arena.owned) + found && |found| == n
    ensures forall i :: 0 <= i < n ==> fresh(found[i]) && found[i].Length == 3 && AllZero(found[i])
    ensures forall i, j :: 0 <= i < j < n ==> found[i] != found[j]
  {
    found := [];
    for i := 0 to n
      invariant arena.owned == old(arena.owned) + found && |found| == i
      invariant forall j :: 0 <= j < i ==> fresh(found[j]) && allocated(found[j])
      invariant forall j :: 0 <= j < i ==> found[j].Length == 3 && AllZero(found[j])
      invariant forall j, k :: 0 <= j < k < i ==> found[j] != found[k]
    {
      var buffer := arena.New([0, 0, 0]);
      assert buffer[..][0] == 0 && buffer[..][1] == 0 && buffer[..][2] == 0;
      found := found + [buffer];
    }
  }

  function Encode(f: Found): seq<int> {
    [f.tweak, f.x, if f.via.Some? then f.via.value + 1 else 0]
  }

  function Decode(cells: seq<int>): Found
    requires |cells| == 3 && 0 <= cells[0] < C.n && 0 <= cells[2] <= C.n
  {
    Found(cells[1], cells[0], if cells[2] == 0 then None else Some(cells[2] - 1))
  }

  /** The C call, and the reading of what it wrote, `_found_output` by `_found_output`. */
  method ScanCall(found: seq<array<int>>, answers: seq<Found>)
    requires |answers| <= |found|
    requires forall i :: 0 <= i < |found| ==> found[i].Length == 3
    requires forall i, j :: 0 <= i < j < |found| ==> found[i] != found[j]
    modifies set b | b in found
    ensures forall i :: 0 <= i < |answers| ==> found[i][..] == Encode(answers[i])
  {
    for i := 0 to |answers|
      invariant forall j :: 0 <= j < i ==> found[j][..] == Encode(answers[j])
    {
      var cells := Encode(answers[i]);
      found[i][0], found[i][1], found[i][2] := cells[0], cells[1], cells[2];
      assert found[i][..] == cells;
    }
  }

  method ReadFound(found: seq<array<int>>, n: nat, ghost answers: seq<Found>) returns (r: seq<Found>)
    requires n == |answers| <= |found|
    requires forall i :: 0 <= i < n ==> found[i].Length == 3 && found[i][..] == Encode(answers[i])
    ensures r == answers
  {
    r := [];
    for i := 0 to n
      invariant r == answers[..i]
    {
      r := r + [Decode(found[i][..])];
    }
  }

  predicate Claimed(items: Option<seq<LabelItem>>) {
    items.Some? ==> ScalarTweaks(items.value)
  }

  function ScannerAnswer(outputs: seq<int>, scan: int, summary: Summary, spend: Point,
                         items: Option<seq<LabelItem>>): Result<seq<Found>>
    requires Claimed(items)
  {
    if !IsSecretKey(scan) || (items.Some? && !WellFormed(items.value)) then Raised(ValueError)
    else if items.None? then Ok(Scan(outputs, scan, summary, spend, None))
    else
      CacheOfScalars(items.value);
      Ok(Scan(outputs, scan, summary, spend, Some(LabelsOf(CacheOf(items.value)))))
  }

  /** The scan over the structs and the cache it is given. */
  method ScanHeld(found: seq<array<int>>, cache: seq<array<int>>, outputs: seq<int>, d: Scalar, summary: Summary,
                  spend: Point, items: Option<seq<LabelItem>>) returns (r: Result<seq<Found>>)
    requires |found| == |outputs| && IsSecretKey(d)
    requires forall i :: 0 <= i < |found| ==> found[i].Length == 3
    requires forall i, j :: 0 <= i < j < |found| ==> found[i] != found[j]
    requires items.Some? ==> WellFormed(items.value) && Hold(cache, TweaksOf(items.value))
    modifies set b | b in found
    ensures Claimed(items) ==> r == ScannerAnswer(outputs, d, summary, spend, items)
  {
    hide Scan, TweaksOf, CacheOf;
    var labels: Option<Labels> := None;
    if items.Some? {
      var lookup := LookupCache(items.value, cache);
      if !ScalarTweaks(items.value) { return Raised(ValueError); }
      CacheOfScalars(items.value);
      labels := Some(LabelsOf(lookup));
    }
    var answers := Scan(outputs, d, summary, spend, labels);
    ScanIsShort(outputs, d, summary, spend, labels);
    ScanCall(found, answers);
    var read := ReadFound(found, |answers|, answers);
    r := Ok(read);
  }

  lemma ScanIsShort(outputs: seq<int>, scan: Scalar, summary: Summary, spend: Point, labels: Option<Labels>)
    ensures |Scan(outputs, scan, summary, spend, labels)| <= |outputs|
  {
    hide ScanFrom;
    ScanLength(outputs, ScannerSecret(summary.hash, scan, summary.sum), spend, labels, 0);
  }

  /** The `finally` reaches the lists and not the stranded one. */
  twostate lemma WipedBut(arena: Arena, new lists: seq<array<int>>, new stray: seq<array<int>>,
                          new tweak: seq<int>)
    requires arena.owned == old(arena.owned) + lists + stray
    requires forall i :: 0 <= i < |lists| ==> fresh(lists[i]) && AllZero(lists[i])
    requires Strayed(stray, tweak) && (stray != [] ==> fresh(stray[0]))
    ensures LeavesBehind(arena, tweak)
  {
    var n := |old(arena.owned)|;
    forall i | n <= i < n + |lists|
      ensures fresh(arena.owned[i]) && AllZero(arena.owned[i])
    {
      assert arena.owned[i] == lists[i - n];
    }
    if stray != [] {
      assert arena.owned[n + |lists|] == stray[0] && |arena.owned| == n + |lists| + 1;
      assert stray[0].Length == 1 && stray[0][0] == stray[0][..][0];
    }
  }

  predicate RefusedItems(items: Option<seq<LabelItem>>) {
    items.Some? && !WellFormed(items.value)
  }

  /** Whether the call gets as far as its `try`. */
  predicate Starts(outputs: seq<int>, scan: int) {
    outputs != [] && Fits(scan)
  }

  /** The tweak a call strands. */
  function StrayOf(outputs: seq<int>, scan: int, items: Option<seq<LabelItem>>): seq<int> {
    if Starts(outputs, scan) && items.Some? then Stray(items.value) else []
  }

  /** `_scan_outputs_`: the found structs and the label cache are overwritten on every exit, and what is
      left is the tweak stranded beside a refused label, where there is one. */
  method ScanOutputsChecked(arena: Arena, outputs: seq<int>, scan: ScalarArg, summary: Summary, spend: Point,
                            items: Option<seq<LabelItem>>) returns (r: Result<seq<Found>>)
    requires items.Some? ==> IsMapping(items.value)
    modifies arena
    ensures Kept(scan)
    ensures LeavesBehind(arena, StrayOf(outputs, ValueOf(scan), items))
    ensures !Starts(outputs, ValueOf(scan)) ==> r == Raised(ValueError) && arena.owned == old(arena.owned)
    ensures Starts(outputs, ValueOf(scan)) ==>
      && IsScanAnswer(r, outputs, ValueOf(scan), summary, spend, items)
      && |arena.owned| - |old(arena.owned)|
         == |outputs| + (if items.Some? then Filled(items.value) + |Stray(items.value)| else 0)
  {
    hide ScannerAnswer, Claimed, TweaksOf, Filled, WellFormed, Stray, RefusedItems, IsScanAnswer;
    if outputs == [] { return Raised(ValueError); }
    var scalar := Scalar32(scan);
    if scalar.Raised? { return Raised(scalar.error); }
    var d := Load(scalar.value);
    r := ScanAndWipe(arena, outputs, d, summary, spend, items);
    AnswerIs(r, outputs, d, summary, spend, items);
  }

  /** From the `try` on. */
  method ScanAndWipe(arena: Arena, outputs: seq<int>, d: int, summary: Summary, spend: Point,
                     items: Option<seq<LabelItem>>) returns (r: Result<seq<Found>>)
    requires Starts(outputs, d)
    modifies arena
    ensures LeavesBehind(arena, StrayOf(outputs, d, items))
    ensures Claimed(items) ==> r == ScannerAnswer(outputs, d, summary, spend, items)
    ensures RefusedItems(items) || !IsSecretKey(d) ==> r == Raised(ValueError)
    ensures |arena.owned| - |old(arena.owned)|
            == |outputs| + (if items.Some? then Filled(items.value) + |Stray(items.value)| else 0)
  {
    hide ScannerAnswer, Claimed, Filled, Stray, LeavesBehind;
    var found := NewFound(arena, |outputs|);
    var cache, refused, stray := FillFrom(arena, items);
    r := ScanUnless(refused, found, cache, outputs, d, summary, spend, items);
    var all := found + cache;
    WipeAll(all);
    WipedBut(arena, all, stray, StrayOf(outputs, d, items));
  }

  /** The scan, unless a label or the scan key is refused. */
  method ScanUnless(refused: bool, found: seq<array<int>>, cache: seq<array<int>>, outputs: seq<int>, d: int,
                    summary: Summary, spend: Point, items: Option<seq<LabelItem>>) returns (r: Result<seq<Found>>)
    requires |found| == |outputs| && forall i :: 0 <= i < |found| ==> found[i].Length == 3
    requires forall i, j :: 0 <= i < j < |found| ==> found[i] != found[j]
    requires refused <==> RefusedItems(items)
    requires !refused && items.Some? ==> Hold(cache, TweaksOf(items.value))
    modifies set b | b in found
    ensures Claimed(items) ==> r == ScannerAnswer(outputs, d, summary, spend, items)
    ensures RefusedItems(items) || !IsSecretKey(d) ==> r == Raised(ValueError)
  {
    hide ScannerAnswer, Claimed, TweaksOf, WellFormed;
    if refused || !IsSecretKey(d) {
      RefusedScan(outputs, d, summary, spend, items);
      r := Raised(ValueError);
    } else {
      r := ScanHeld(found, cache, outputs, d, summary, spend, items);
    }
  }

  /** The cache of a mapping, or none at all. */
  method FillFrom(arena: Arena, items: Option<seq<LabelItem>>)
    returns (buffers: seq<array<int>>, refused: bool, ghost stray: seq<array<int>>)
    modifies arena
    ensures arena.owned == old(arena.owned) + buffers + stray
    ensures forall i :: 0 <= i < |buffers| ==> fresh(buffers[i]) && (stray != [] ==> buffers[i] != stray[0])
    ensures Strayed(stray, if items.Some? then Stray(items.value) else []) && (stray != [] ==> fresh(stray[0]))
    ensures |buffers| == if items.Some? then Filled(items.value) else 0
    ensures refused <==> RefusedItems(items)
    ensures !refused ==> stray == [] && (items.Some? ==> Hold(buffers, TweaksOf(items.value)))
  {
    buffers, refused, stray := [], false, [];
    if items.Some? {
      buffers, refused, stray := FillLabelCache(arena, items.value);
    }
  }

  /** What the scan looks labels up in: each one of the mapping, with its tweak. */
  ghost predicate IsCacheOf(cache: Labels, mapping: seq<LabelItem>) {
    && (forall l :: l in cache <==> exists i :: 0 <= i < |mapping| && mapping[i].point == l)
    && forall i :: 0 <= i < |mapping| ==> mapping[i].point in cache && cache[mapping[i].point] == mapping[i].tweak
  }

  /** ValueError for a refused item or scan key; otherwise the scan with no cache, or with the mapping's. */
  ghost predicate IsScanAnswer(r: Result<seq<Found>>, outputs: seq<int>, d: int, summary: Summary, spend: Point,
                               items: Option<seq<LabelItem>>) {
    if !(0 < d < C.n) then r == Raised(ValueError)
    else
      match items
      case None => r == Ok(Scan(outputs, d, summary, spend, None))
      case Some(mapping) =>
        if exists i :: 0 <= i < |mapping| && !(mapping[i].labelOk && mapping[i].tweakOk) then r == Raised(ValueError)
        else
          ScalarTweaks(mapping) ==>
            exists cache: Labels :: r == Ok(Scan(outputs, d, summary, spend, Some(cache))) && IsCacheOf(cache, mapping)
  }

  lemma AnswerIs(r: Result<seq<Found>>, outputs: seq<int>, d: int, summary: Summary, spend: Point,
                 items: Option<seq<LabelItem>>)
    requires items.Some? ==> IsMapping(items.value)
    requires Claimed(items) ==> r == ScannerAnswer(outputs, d, summary, spend, items)
    requires RefusedItems(items) || !IsSecretKey(d) ==> r == Raised(ValueError)
    ensures IsScanAnswer(r, outputs, d, summary, spend, items)
  {
    hide Scan, IsCacheOf, CacheOf;
    if items.Some? && ScalarTweaks(items.value) && WellFormed(items.value) && IsSecretKey(d) {
      AnswerIsOfTheMapping(outputs, d, summary, spend, items.value);
      assert forall i :: 0 <= i < |items.value| ==> IsFine(items.value[i]);
    }
    if items.Some? && !WellFormed(items.value) {
      var i :| 0 <= i < |items.value| && !IsFine(items.value[i]);
    }
  }

  lemma AnswerIsOfTheMapping(outputs: seq<int>, scan: int, summary: Summary, spend: Point, mapping: seq<LabelItem>)
    requires 0 < scan < C.n && IsMapping(mapping) && WellFormed(mapping) && ScalarTweaks(mapping)
    ensures exists cache: Labels ::
              && ScannerAnswer(outputs, scan, summary, spend, Some(mapping))
                 == Ok(Scan(outputs, scan, summary, spend, Some(cache)))
              && IsCacheOf(cache, mapping)
  {
    hide Scan, CacheOf;
    CacheOfScalars(mapping);
    assert forall i :: 0 <= i < |mapping| ==> IsFine(mapping[i]);
    CacheOfExact(mapping);
    assert IsCacheOf(LabelsOf(CacheOf(mapping)), mapping);
  }

  /** The failing input: one label of the wrong length beside a tweak that is not 0.  The call raises,
      and the tweak is in memory still. */
  method ShortLabelStrandsItsTweak(arena: Arena, outputs: seq<int>, scan: ScalarArg, summary: Summary, spend: Point,
                                   tweak: Word) returns (r: Result<seq<Found>>)
    requires outputs != [] && Fits(ValueOf(scan)) && tweak != 0
    modifies arena
    ensures r == Raised(ValueError) && !LeavesOnlyZeros(arena)
    ensures arena.owned != [] && arena.owned[|arena.owned| - 1][..] == [tweak]
  {
    var items := [LabelItem(1, tweak, false, true)];
    assert !IsFine(items[0]) && !items[0].labelOk;
    assert Filled(items) == 0 && Stray(items) == [tweak];
    assert [tweak][0] != 0 && !IsZero([tweak]);
    r := ScanOutputsChecked(arena, outputs, scan, summary, spend, Some(items));
  }

  lemma RefusedScan(outputs: seq<int>, scan: int, summary: Summary, spend: Point, items: Option<seq<LabelItem>>)
    requires !IsSecretKey(scan) || (items.Some? && !WellFormed(items.value))
    ensures Claimed(items) ==> ScannerAnswer(outputs, scan, summary, spend, items) == Raised(ValueError)
  {}
}
