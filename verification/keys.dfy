/** Public keys as octets, the tweak chain that holds a parsed one, and sums of products. */
module Keys {
  import opened Results
  import opened Group
  import Memory

  // ------------------------------------------------------------ octets and points

  /** The octets a key argument can be.  `odd` is the parity of the y the octets carry. */
  datatype PubkeyOctets =
    | Compressed(x: int, odd: bool)      // 33 octets
    | Uncompressed(x: int, odd: bool)    // 65 octets whose x and y satisfy the curve, or no x at all
    | Hybrid(x: int, odd: bool)          // the same under the prefix 06 or 07 that y asks for
    | XOnly(x: int)                      // 32 octets
    | Zeros                              // 33 zero octets, the infinity of an aggregate nonce
    | Malformed                          // anything else

  /** `parse`: the point named by 33 or 65 octets, in any form libsecp256k1 reads. */
  function Parse(octets: PubkeyOctets): Option<Point> {
    if octets.Compressed? || octets.Uncompressed? || octets.Hybrid? then
      match LiftX(octets.x)
      case None => None
      case Some(p) => Some(Sgn(octets.odd, p))
    else None
  }

  function Serialize(point: Point, compressed: bool): PubkeyOctets {
    if compressed then Compressed(X(point), Odd(point)) else Uncompressed(X(point), Odd(point))
  }

  lemma ParseSerialize(point: Point, compressed: bool)
    requires point != 0
    ensures Parse(Serialize(point, compressed)) == Some(point)
    ensures Parse(Hybrid(X(point), Odd(point))) == Some(point)
  {
    LiftOfX(point);
  }

  /** The serialization of what parsed is the octets it was parsed from, in the plain 65-octet form
      where they were hybrid. */
  lemma ParsedIsPoint(octets: PubkeyOctets)
    ensures var r := Parse(octets);
            r.Some? ==>
              && r.value != 0
              && Serialize(r.value, octets.Compressed?)
                 == if octets.Hybrid? then Uncompressed(octets.x, octets.odd) else octets
  {
    if Parse(octets).Some? {
      LiftXExact(octets.x, LiftX(octets.x).value);
      EvenPoint(LiftX(octets.x).value);
      assert X(Neg(LiftX(octets.x).value)) == X(LiftX(octets.x).value);
    }
  }

  /** `prvkey_negate`: the C call writes through its pointer, so what it is given is a copy.  The exit
      that refuses the key is the one that claims nothing of that copy. */
  method PrvkeyNegate(arena: Memory.Arena, prvkey: Memory.ScalarArg, into: Option<Memory.Destination>)
    returns (r: Result<Option<seq<int>>>)
    modifies arena, if into.Some? then {into.value.buffer} else {}
    ensures Memory.KeptBut(prvkey, into)
    ensures var d := old(Memory.ValueOf(prvkey));
      if Memory.IsSecretKey(d) then Memory.Delivered(r, [C.n - d], into) && Memory.LeavesOnlyZeros(arena)
      else Memory.Refused(r, into)
  {
    var buffer := Memory.ScalarBuffer(arena, prvkey);
    if buffer.Raised? { return Raised(buffer.error); }
    assert buffer.value[..][0] == Memory.ValueOf(prvkey);
    if !Memory.IsSecretKey(buffer.value[0]) { return Raised(ValueError); }
    buffer.value[0] := C.n - buffer.value[0];
    assert buffer.value[..] == [C.n - Memory.ValueOf(prvkey)];
    r := Memory.Take(buffer.value, into);
  }

  // ------------------------------------------------------------ adding tweaks

  /** The group operation of tweaking: None where the C call answers 0. */
  function Tweaked(point: Point, tweak: nat): Option<Point> {
    if tweak >= C.n || Add(point, tweak) == 0 then None else Some(Add(point, tweak))
  }

  /** `pubkey_tweak_add`, from octets to octets. */
  function PubkeyTweakAdd(octets: PubkeyOctets, tweak: int, compressed: bool): Result<PubkeyOctets> {
    match Parse(octets)
    case None => Raised(ValueError)
    case Some(point) =>
      if !Memory.Fits(tweak) then Raised(ValueError)
      else match Tweaked(point, tweak)
           case None => Raised(ValueError)
           case Some(sum) => Ok(Serialize(sum, compressed))
  }

  /** When a key takes a tweak, and what it becomes, in numbers: tweaks below n but the one that cancels. */
  lemma TweakAddExact(octets: PubkeyOctets, tweak: int, compressed: bool)
    ensures var r := PubkeyTweakAdd(octets, tweak, compressed);
            var p := Parse(octets);
            && (r.Ok? <==> p.Some? && 0 <= tweak < C.n && p.value + tweak != C.n)
            && (r.Raised? ==> r.error == ValueError)
            && (r.Ok? ==>
                  && r.value.Compressed? == compressed && !r.value.Hybrid?
                  && Parse(r.value) == Some(if p.value + tweak < C.n then p.value + tweak else p.value + tweak - C.n))
  {
    ParsedIsPoint(octets);
    var r := PubkeyTweakAdd(octets, tweak, compressed);
    if r.Ok? { ParseSerialize(Tweaked(Parse(octets).value, tweak).value, compressed); }
    hide Parse;
  }

  /** What the chain holds: a point, or an object the last refused tweak left invalid. */
  type Held = Option<Point>

  datatype Step = Step(tweak: int, compressed: bool)

  function StepHeld(held: Held, step: Step): Held {
    if !Memory.Fits(step.tweak) || held.None? then held else Tweaked(held.value, step.tweak)
  }

  function StepAnswer(held: Held, step: Step): Result<PubkeyOctets> {
    var after := StepHeld(held, step);
    if !Memory.Fits(step.tweak) || after.None? then Raised(ValueError)
    else Ok(Serialize(after.value, step.compressed))
  }

  class PubkeyTweakChain {
    var held: Held

    ghost predicate Valid()
      reads this
    {
      held != Some(0)
    }

    constructor (point: Point)
      requires point != 0
      ensures Valid() && held == Some(point)
    {
      held := Some(point);
    }

    static method Create(octets: PubkeyOctets) returns (r: Result<PubkeyTweakChain>)
      ensures Parse(octets).None? ==> r == Raised(ValueError)
      ensures Parse(octets).Some? ==> r.Ok? && fresh(r.value) && r.value.Valid() && r.value.held == Parse(octets)
    {
      var parsed := Parse(octets);
      if parsed.None? { return Raised(ValueError); }
      ParsedIsPoint(octets);
      var chain := new PubkeyTweakChain(parsed.value);
      return Ok(chain);
    }

    /** A refused tweak invalidates the held object, unless Python refused the argument first. */
    method TweakAdd(tweak: int, compressed: bool) returns (r: Result<PubkeyOctets>)
      requires Valid()
      modifies this
      ensures Valid() && held == StepHeld(old(held), Step(tweak, compressed))
      ensures r == StepAnswer(old(held), Step(tweak, compressed))
    {
      if !Memory.Fits(tweak) { return Raised(ValueError); }
      if held.None? { return Raised(ValueError); }
      var point := held.value;
      held := None;
      if tweak >= C.n { return Raised(ValueError); }
      point := Add(point, tweak);
      if point == 0 { return Raised(ValueError); }
      held := Some(point);
      return Ok(Serialize(point, compressed));
    }

    /** What the chain answers reads back as the point it holds. */
    method Pubkey(compressed: bool) returns (r: Result<PubkeyOctets>)
      requires Valid()
      ensures r.Ok? <==> held.Some?
      ensures r.Ok? ==> Parse(r.value) == held && r.value.Compressed? == compressed && !r.value.Hybrid?
      ensures r.Raised? ==> r.error == RuntimeError
    {
      match held
      case None => r := Raised(RuntimeError);
      case Some(p) =>
        ParseSerialize(p, compressed);
        r := Ok(Serialize(p, compressed));
    }
  }

  /** The answers of a chain walked along a path. */
  function Answers(held: Held, steps: seq<Step>): seq<Result<PubkeyOctets>> {
    seq(|steps|, i requires 0 <= i < |steps| => StepAnswer(HeldAfter(held, steps[..i]), steps[i]))
  }

  method Walk(chain: PubkeyTweakChain, steps: seq<Step>) returns (answers: seq<Result<PubkeyOctets>>)
    requires chain.Valid()
    modifies chain
    ensures chain.Valid() && chain.held == HeldAfter(old(chain.held), steps)
    ensures answers == Answers(old(chain.held), steps)
  {
    hide StepHeld, StepAnswer, Parse, Serialize;
    answers := [];
    for i := 0 to |steps|
      invariant chain.Valid() && chain.held == HeldAfter(old(chain.held), steps[..i])
      invariant |answers| == i
      invariant forall j :: 0 <= j < i ==>
        answers[j] == StepAnswer(HeldAfter(old(chain.held), steps[..j]), steps[j])
    {
      assert steps[..i + 1][..i] == steps[..i];
      var answer := chain.TweakAdd(steps[i].tweak, steps[i].compressed);
      answers := answers + [answer];
    }
    assert steps[..|steps|] == steps;
  }

  function HeldAfter(held: Held, steps: seq<Step>): Held {
    if steps == [] then held
    else StepHeld(HeldAfter(held, steps[..|steps| - 1]), steps[|steps| - 1])
  }

  /** The stateless caller: each step tweaks the octets the step before answered.  A tweak Python
      refuses leaves the caller with the key it had; one the group refuses ends the path. */
  function Fold(octets: PubkeyOctets, steps: seq<Step>): Result<PubkeyOctets> {
    if steps == [] then Ok(octets)
    else
      var last := steps[|steps| - 1];
      match Fold(octets, steps[..|steps| - 1])
      case Raised(e) => Raised(e)
      case Ok(key) => if Memory.Fits(last.tweak) then PubkeyTweakAdd(key, last.tweak, last.compressed) else Ok(key)
  }

  function TweakSum(steps: seq<Step>): Scalar {
    if steps == [] then 0
    else
      var rest := TweakSum(steps[..|steps| - 1]);
      var t := steps[|steps| - 1].tweak;
      if 0 <= t < C.n then Add(rest, t) else rest
  }

  /** The chain refines the fold: after any path both hold one point, P + (sum of the tweaks) * G,
      or both ended at the same step, and the chain's next answer is the stateless one. */
  lemma {:induction false} ChainRefinesFold(octets: PubkeyOctets, steps: seq<Step>, next: Step)
    requires Parse(octets).Some?
    ensures var held := HeldAfter(Parse(octets), steps);
            match Fold(octets, steps)
            case Ok(key) =>
              && held == Parse(key) == Some(Add(Parse(octets).value, TweakSum(steps)))
              && StepAnswer(held, next) == PubkeyTweakAdd(key, next.tweak, next.compressed)
            case Raised(e) => held.None? && StepAnswer(held, next) == Raised(ValueError)
  {
    ParsedIsPoint(octets);
    if steps != [] {
      var rest, last := steps[..|steps| - 1], steps[|steps| - 1];
      ChainRefinesFold(octets, rest, last);
      var before := HeldAfter(Parse(octets), rest);
      if before.Some? && Memory.Fits(last.tweak) && Tweaked(before.value, last.tweak).Some? {
        ParseSerialize(Tweaked(before.value, last.tweak).value, last.compressed);
        AddAssoc(Parse(octets).value, TweakSum(rest), last.tweak);
      }
    }
  }

  /** What a refused tweak does to a chain that still holds a point: one Python refuses leaves it held,
      one the group refuses ends it.  -1 is of the first kind, n of the second. */
  lemma RefusedTweak(point: Point, step: Step)
    requires StepAnswer(Some(point), step).Raised?
    ensures StepHeld(Some(point), step) == (if Memory.Fits(step.tweak) then None else Some(point))
    ensures forall compressed ::
      && StepAnswer(Some(point), Step(-1, compressed)).Raised?
      && StepHeld(Some(point), Step(-1, compressed)) == Some(point)
      && StepAnswer(Some(point), Step(C.n, compressed)).Raised?
      && StepHeld(Some(point), Step(C.n, compressed)) == None
  {
    assert IsCurve(C);
  }

  /** A broken chain stays broken. */
  lemma {:induction false} BrokenForGood(held: Held, steps: seq<Step>, more: seq<Step>)
    requires HeldAfter(held, steps).None?
    ensures HeldAfter(held, steps + more).None?
  {
    if more == [] {
      assert steps + more == steps;
    } else {
      var rest := more[..|more| - 1];
      assert (steps + more)[..|steps + more| - 1] == steps + rest;
      BrokenForGood(held, steps, rest);
    }
  }

  // ------------------------------------------------------------ sums of products

  function Products(points: seq<Point>, tweaks: seq<Scalar>): seq<Point>
    requires |points| == |tweaks|
  {
    seq(|points|, i requires 0 <= i < |points| => Mul(points[i], tweaks[i]))
  }

  /** `pubkey_tweak_mul_sum`: a product a term, then one sum in which a partial sum at infinity is
      a value like any other. */
  method PubkeyTweakMulSum(pubkeys: seq<PubkeyOctets>, tweaks: seq<int>, compressed: bool)
    returns (r: Result<Option<PubkeyOctets>>, ghost points: seq<Point>)
    ensures r.Ok? <==>
      |pubkeys| == |tweaks| > 0 && forall i :: 0 <= i < |pubkeys| ==> Parse(pubkeys[i]).Some? && 0 < tweaks[i] < C.n
    ensures r.Raised? ==> r.error == ValueError
    ensures r.Ok? ==>
      && |points| == |pubkeys| && (forall i :: 0 <= i < |pubkeys| ==> Parse(pubkeys[i]) == Some(points[i]))
      && (forall i :: 0 <= i < |tweaks| ==> 0 < tweaks[i] < C.n)
      && var sum := Sum(Products(points, tweaks));
         r.value == if sum == 0 then None else Some(Serialize(sum, compressed))
  {
    points := [];
    if |pubkeys| != |tweaks| { return Raised(ValueError), points; }
    hide Parse, Mul;
    var products: seq<Point> := [];
    for i := 0 to |pubkeys|
      invariant |points| == |products| == i
      invariant forall j :: 0 <= j < i ==> 0 < tweaks[j] < C.n && Parse(pubkeys[j]) == Some(points[j])
      invariant forall j :: 0 <= j < i ==> products[j] == Mul(points[j], tweaks[j])
    {
      var point := Parse(pubkeys[i]);
      if point.None? || !(0 < tweaks[i] < C.n) { return Raised(ValueError), points; }
      products := products + [Mul(point.value, tweaks[i])];
      points := points + [point.value];
    }
    if products == [] { return Raised(ValueError), points; }
    assert products == Products(points, tweaks);
    var sum: Point := 0;
    for i := 0 to |products|
      invariant sum == Sum(products[..i])
    {
      assert products[..i + 1][..i] == products[..i];
      sum := Add(sum, products[i]);
    }
    assert products[..|products|] == products;
    r := Ok(if sum == 0 then None else Some(Serialize(sum, compressed)));
  }

  /** The combination written in the integers. */
  function Dot(points: seq<Point>, tweaks: seq<Scalar>, m: nat): int
    requires m <= |points| == |tweaks|
  {
    if m == 0 then 0 else Dot(points, tweaks, m - 1) + (points[m - 1] as int) * (tweaks[m - 1] as int)
  }

  /** The sum is the integer combination modulo n, so it is infinity exactly when n divides that. */
  lemma {:induction false} SumIsCombination(points: seq<Point>, tweaks: seq<Scalar>, m: nat)
    requires m <= |points| == |tweaks|
    ensures exists q :: Dot(points, tweaks, m) == q * C.n + Sum(Products(points, tweaks)[..m])
  {
    var products := Products(points, tweaks);
    if m == 0 {
      assert Dot(points, tweaks, m) == 0 * C.n + Sum(products[..m]);
    } else {
      SumIsCombination(points, tweaks, m - 1);
      assert products[..m][..m - 1] == products[..m - 1];
      TermOverflow(Dot(points, tweaks, m - 1), Sum(products[..m - 1]), points[m - 1], tweaks[m - 1]);
    }
  }

  lemma TermOverflow(total: int, sum: Scalar, a: Scalar, b: Scalar)
    requires exists q :: total == q * C.n + sum
    ensures exists t :: total + (a as int) * (b as int) == t * C.n + Add(sum, Mul(a, b))
  {
    MulIsProduct(a, b);
    var q :| total == q * C.n + sum;
    var ab := (a as int) * (b as int);
    var r :| ab == r * C.n + Mul(a, b);
    CarryOver(q, r, total + ab, sum, Mul(a, b));
  }

  lemma CarryOver(q: int, r: int, total: int, a: Scalar, b: Scalar)
    requires total == q * C.n + a + r * C.n + b
    ensures exists t :: total == t * C.n + Add(a, b)
  {
    assert (q + r) * C.n == q * C.n + r * C.n;
    assert (q + r + 1) * C.n == (q + r) * C.n + C.n;
    assert total == (q + r) * C.n + Add(a, b) || total == (q + r + 1) * C.n + Add(a, b);
  }

  // ------------------------------------------------------------ sorting

  /** A cffi pointer: a Python object of its own, hashing and comparing as the address it holds. */
  datatype Pointer = Pointer(id: nat, address: nat)

  /** Compressed-form order: the prefix octet, then x. */
  predicate Before(a: Point, b: Point) {
    if Odd(a) != Odd(b) then Odd(b) else X(a) <= X(b)
  }

  /** The 33 octets of a compressed key, read as one number: the prefix, then x. */
  function CompressedNumber(octets: PubkeyOctets): int
    requires octets.Compressed?
  {
    (if octets.odd then 3 else 2) * TWO_256 + octets.x
  }

  /** Which is the order of the compressed forms, octet by octet, the first one weighing most. */
  lemma BeforeIsCompressedOrder(a: Point, b: Point)
    requires a != 0 && b != 0
    ensures Before(a, b) <==> CompressedNumber(Serialize(a, true)) <= CompressedNumber(Serialize(b, true))
  {
    assert IsCurve(C);
    assert 0 <= C.x(a) < C.p && 0 <= C.x(b) < C.p;
  }

  predicate SortedBy(addresses: seq<nat>, memory: nat -> Point) {
    forall i, j :: 0 <= i < j < |addresses| ==> Before(memory(addresses[i]), memory(addresses[j]))
  }

  /** Sorted is: the compressed forms do not go down. */
  lemma SortedAscends(addresses: seq<nat>, memory: nat -> Point)
    requires forall a :: a in addresses ==> memory(a) != 0
    ensures SortedBy(addresses, memory)
            <==> forall i, j :: 0 <= i < j < |addresses| ==>
                   CompressedNumber(Serialize(memory(addresses[i]), true))
                   <= CompressedNumber(Serialize(memory(addresses[j]), true))
  {
    hide Before, CompressedNumber;
    forall i, j | 0 <= i < j < |addresses|
      ensures Before(memory(addresses[i]), memory(addresses[j]))
              <==> CompressedNumber(Serialize(memory(addresses[i]), true))
                   <= CompressedNumber(Serialize(memory(addresses[j]), true))
    {
      BeforeIsCompressedOrder(memory(addresses[i]), memory(addresses[j]));
    }
  }

  function Insert(addresses: seq<nat>, a: nat, memory: nat -> Point): seq<nat> {
    if addresses == [] || Before(memory(a), memory(addresses[0])) then [a] + addresses
    else [addresses[0]] + Insert(addresses[1..], a, memory)
  }

  lemma {:induction false} InsertAdds(addresses: seq<nat>, a: nat, memory: nat -> Point)
    ensures multiset(Insert(addresses, a, memory)) == multiset(addresses) + multiset{a}
  {
    if addresses != [] && !Before(memory(a), memory(addresses[0])) {
      assert addresses == [addresses[0]] + addresses[1..];
      InsertAdds(addresses[1..], a, memory);
    }
  }

  lemma {:induction false} InsertSorts(addresses: seq<nat>, a: nat, memory: nat -> Point)
    requires SortedBy(addresses, memory)
    ensures SortedBy(Insert(addresses, a, memory), memory)
  {
    if addresses == [] {
    } else if Before(memory(a), memory(addresses[0])) {
      FirstBefore(a, addresses, memory);
    } else {
      var rest := Insert(addresses[1..], a, memory);
      InsertSorts(addresses[1..], a, memory);
      InsertAdds(addresses[1..], a, memory);
      forall b | b in rest
        ensures Before(memory(addresses[0]), memory(b))
      {
        assert b in multiset(rest);
        assert b == a || b in addresses[1..];
      }
    }
  }

  function Points(addresses: seq<nat>, memory: nat -> Point): seq<Point> {
    seq(|addresses|, i requires 0 <= i < |addresses| => memory(addresses[i]))
  }

  /** A multiset of finite points has one sorted order. */
  lemma {:induction false} SortedIsUnique(a: seq<Point>, b: seq<Point>)
    requires IsSorted(a) && IsSorted(b) && multiset(a) == multiset(b) && 0 !in a
    ensures a == b
  {
    assert |a| == |multiset(a)| == |multiset(b)| == |b|;
    if a != [] {
      SameFirst(a, b);
      RestOf(a);
      RestOf(b);
      hide IsSorted;
      SortedIsUnique(a[1..], b[1..]);
    }
  }

  lemma RestOf(a: seq<Point>)
    requires a != [] && IsSorted(a)
    ensures a == [a[0]] + a[1..] && IsSorted(a[1..]) && multiset(a[1..]) == multiset(a) - multiset{a[0]}
  {
    assert a == [a[0]] + a[1..];
  }

  predicate IsSorted(points: seq<Point>) {
    forall i, j :: 0 <= i < j < |points| ==> Before(points[i], points[j])
  }

  lemma SameFirst(a: seq<Point>, b: seq<Point>)
    requires IsSorted(a) && IsSorted(b) && multiset(a) == multiset(b) && 0 !in a && a != [] && b != []
    ensures a[0] == b[0]
  {
    assert a[0] in multiset(b) && b[0] in multiset(a);
    var i :| 0 <= i < |a| && a[i] == b[0];
    var j :| 0 <= j < |b| && b[j] == a[0];
    assert i > 0 ==> Before(a[0], a[i]);
    assert j > 0 ==> Before(b[0], b[j]);
    SameX(a[0], b[0]);
  }

  /** Two orders of the same keys sort to one sequence of points, whichever objects hold them. */
  lemma SortingForgetsTheOrder(r: seq<Pointer>, t: seq<Pointer>, memory: nat -> Point)
    requires SortedBy(Addresses(r), memory) && SortedBy(Addresses(t), memory)
    requires multiset(Points(Addresses(r), memory)) == multiset(Points(Addresses(t), memory))
    requires forall p :: p in r ==> memory(p.address) != 0
    ensures Points(Addresses(r), memory) == Points(Addresses(t), memory)
  {
    SortedIsUnique(Points(Addresses(r), memory), Points(Addresses(t), memory));
  }

  /** Points follow their addresses through any reordering. */
  lemma {:induction false} PointsFollow(s: seq<nat>, t: seq<nat>, memory: nat -> Point)
    requires multiset(s) == multiset(t)
    ensures multiset(Points(s, memory)) == multiset(Points(t, memory))
  {
    hide Points;
    if s == [] {
      assert |multiset(t)| == 0;
    } else {
      var i := FindFirst(s, t);
      PointTakenOut(s, 0, memory);
      PointTakenOut(t, i, memory);
      SameRest(s, t, i);
      PointsFollow(s[..0] + s[1..], t[..i] + t[i + 1..], memory);
    }
  }

  lemma PointTakenOut(s: seq<nat>, i: nat, memory: nat -> Point)
    requires i < |s|
    ensures multiset(Points(s, memory)) == multiset(Points(s[..i] + s[i + 1..], memory)) + multiset{memory(s[i])}
  {
    assert Points(s, memory) == Points(s[..i], memory) + [memory(s[i])] + Points(s[i + 1..], memory);
    assert Points(s[..i] + s[i + 1..], memory) == Points(s[..i], memory) + Points(s[i + 1..], memory);
  }

  lemma FirstBefore(a: nat, addresses: seq<nat>, memory: nat -> Point)
    requires SortedBy(addresses, memory) && addresses != [] && Before(memory(a), memory(addresses[0]))
    ensures SortedBy([a] + addresses, memory)
  {
    forall j | 0 <= j < |addresses|
      ensures Before(memory(a), memory(addresses[j]))
    {
      if j > 0 { assert Before(memory(addresses[0]), memory(addresses[j])); }
    }
  }

  /** The C call: it reorders the array of addresses and nothing else. */
  method PubkeySortCall(pointers: array<nat>, memory: nat -> Point)
    modifies pointers
    ensures SortedBy(pointers[..], memory) && multiset(pointers[..]) == multiset(old(pointers[..]))
  {
    var before := pointers[..];
    var sorted: seq<nat> := [];
    for i := 0 to |before|
      invariant SortedBy(sorted, memory) && multiset(sorted) == multiset(before[..i])
    {
      assert before[..i + 1] == before[..i] + [before[i]];
      InsertAdds(sorted, before[i], memory);
      InsertSorts(sorted, before[i], memory);
      sorted := Insert(sorted, before[i], memory);
    }
    assert before[..|before|] == before;
    assert |sorted| == |multiset(sorted)| == |multiset(before)| == |before|;
    forall i | 0 <= i < pointers.Length {
      pointers[i] := sorted[i];
    }
    assert pointers[..] == sorted;
  }

  function Addresses(pubkeys: seq<Pointer>): seq<nat> {
    seq(|pubkeys|, i requires 0 <= i < |pubkeys| => pubkeys[i].address)
  }

  /** A Python dict keyed on the pointers: one entry an address, the last pointer to it winning. */
  function Owners(pubkeys: seq<Pointer>): map<nat, Pointer> {
    if pubkeys == [] then map[]
    else Owners(pubkeys[..|pubkeys| - 1])[pubkeys[|pubkeys| - 1].address := pubkeys[|pubkeys| - 1]]
  }

  lemma {:induction false} OwnersHold(pubkeys: seq<Pointer>)
    ensures forall p :: p in pubkeys ==> p.address in Owners(pubkeys)
    ensures forall a :: a in Owners(pubkeys) ==> Owners(pubkeys)[a] in pubkeys && Owners(pubkeys)[a].address == a
  {
    if pubkeys != [] {
      var rest := pubkeys[..|pubkeys| - 1];
      OwnersHold(rest);
      assert pubkeys == rest + [pubkeys[|pubkeys| - 1]];
    }
  }

  function Lookups(owners: map<nat, Pointer>, addresses: seq<nat>): seq<Pointer>
    requires forall a :: a in addresses ==> a in owners
  {
    seq(|addresses|, i requires 0 <= i < |addresses| => owners[addresses[i]])
  }

  /** `_pubkey_sort_`: the sorted addresses are looked up in the dict, which never misses. */
  method PubkeySort(pubkeys: seq<Pointer>, memory: nat -> Point) returns (r: seq<Pointer>)
    ensures SortedBy(Addresses(r), memory) && multiset(Addresses(r)) == multiset(Addresses(pubkeys))
    ensures forall p :: p in r ==> p.address in Owners(pubkeys) && Owners(pubkeys)[p.address] == p && p in pubkeys
  {
    if pubkeys == [] { return []; }
    var pointers := new nat[|pubkeys|](i requires 0 <= i < |pubkeys| => pubkeys[i].address);
    assert pointers[..] == Addresses(pubkeys);
    PubkeySortCall(pointers, memory);
    OwnersHold(pubkeys);
    var sorted := pointers[..];
    forall a | a in sorted
      ensures a in Owners(pubkeys)
    {
      assert a in multiset(sorted);
      assert a in Addresses(pubkeys);
    }
    r := Lookups(Owners(pubkeys), sorted);
    assert Addresses(r) == sorted;
  }

  /** The answer is a rearrangement of the very objects handed in exactly when no two of them are
      different objects at one address: of aliases, only the last is ever answered. */
  lemma SortedObjectsAreTheCallers(pubkeys: seq<Pointer>, r: seq<Pointer>)
    requires multiset(Addresses(r)) == multiset(Addresses(pubkeys))
    requires forall p :: p in r ==> p.address in Owners(pubkeys) && Owners(pubkeys)[p.address] == p
    ensures multiset(r) == multiset(pubkeys)
            <==> forall p, q :: p in pubkeys && q in pubkeys && p.address == q.address ==> p == q
  {
    var owners := Owners(pubkeys);
    OwnersHold(pubkeys);
    if multiset(r) == multiset(pubkeys) {
      forall p | p in pubkeys
        ensures owners[p.address] == p
      {
        assert p in multiset(r);
      }
    } else if forall p, q :: p in pubkeys && q in pubkeys && p.address == q.address ==> p == q {
      SameAddressesIn(pubkeys, r);
      assert r == Lookups(owners, Addresses(r));
      assert pubkeys == Lookups(owners, Addresses(pubkeys));
      LookupsAreEqual(owners, Addresses(r), Addresses(pubkeys));
    }
  }

  /** Two objects at one address: the first is never answered, and the second is, twice. */
  lemma AliasesAreAnsweredAsOne(a: nat, r: seq<Pointer>)
    requires multiset(Addresses(r)) == multiset(Addresses([Pointer(0, a), Pointer(1, a)]))
    requires var owners := Owners([Pointer(0, a), Pointer(1, a)]);
             forall p :: p in r ==> p.address in owners && owners[p.address] == p
    ensures r == [Pointer(1, a), Pointer(1, a)]
  {
    var pubkeys := [Pointer(0, a), Pointer(1, a)];
    assert pubkeys[..1] == [Pointer(0, a)] && pubkeys[..1][..0] == [];
    assert Addresses(pubkeys) == [a, a];
    assert |Addresses(r)| == |multiset(Addresses(r))| == 2;
    forall i | 0 <= i < 2
      ensures r[i] == Pointer(1, a)
    {
      assert r[i] in r && Addresses(r)[i] in multiset(Addresses(r));
      assert Addresses(r)[i] in Addresses(pubkeys);
    }
  }

  lemma SameAddressesIn(pubkeys: seq<Pointer>, r: seq<Pointer>)
    requires multiset(Addresses(r)) == multiset(Addresses(pubkeys))
    ensures forall a :: a in Addresses(r) ==> a in Owners(pubkeys)
    ensures forall a :: a in Addresses(pubkeys) ==> a in Owners(pubkeys)
  {
    OwnersHold(pubkeys);
    forall a | a in Addresses(r)
      ensures a in Addresses(pubkeys)
    {
      assert a in multiset(Addresses(r));
    }
  }

  lemma TakeOut(owners: map<nat, Pointer>, s: seq<nat>, i: nat)
    requires i < |s| && forall a :: a in s ==> a in owners
    ensures var rest := s[..i] + s[i + 1..];
            && (forall a :: a in rest ==> a in owners)
            && multiset(s) == multiset(rest) + multiset{s[i]}
            && multiset(Lookups(owners, s)) == multiset(Lookups(owners, rest)) + multiset{owners[s[i]]}
  {
    var rest := s[..i] + s[i + 1..];
    assert s == s[..i] + [s[i]] + s[i + 1..];
    assert Lookups(owners, s) == Lookups(owners, s[..i]) + [owners[s[i]]] + Lookups(owners, s[i + 1..]);
    assert Lookups(owners, rest) == Lookups(owners, s[..i]) + Lookups(owners, s[i + 1..]);
  }

  lemma {:induction false} LookupsAreEqual(owners: map<nat, Pointer>, s: seq<nat>, t: seq<nat>)
    requires multiset(s) == multiset(t)
    requires (forall a :: a in s ==> a in owners) && (forall a :: a in t ==> a in owners)
    ensures multiset(Lookups(owners, s)) == multiset(Lookups(owners, t))
  {
    hide Lookups;
    if s == [] {
      assert |multiset(t)| == 0;
    } else {
      var i := FindFirst(s, t);
      var s', t' := s[..0] + s[1..], t[..i] + t[i + 1..];
      TakeOut(owners, s, 0);
      TakeOut(owners, t, i);
      SameRest(s, t, i);
      LookupsAreEqual(owners, s', t');
    }
  }

  lemma FindFirst(s: seq<nat>, t: seq<nat>) returns (i: nat)
    requires s != [] && multiset(s) == multiset(t)
    ensures i < |t| && t[i] == s[0]
  {
    assert s[0] in multiset(t);
    i :| 0 <= i < |t| && t[i] == s[0];
  }

  lemma SameRest(s: seq<nat>, t: seq<nat>, i: nat)
    requires s != [] && multiset(s) == multiset(t) && i < |t| && t[i] == s[0]
    ensures multiset(s[..0] + s[1..]) == multiset(t[..i] + t[i + 1..])
  {
    assert s == s[..0] + [s[0]] + s[1..];
    assert t == t[..i] + [t[i]] + t[i + 1..];
    assert multiset(s[..0] + s[1..]) == multiset(s) - multiset{s[0]};
    assert multiset(t[..i] + t[i + 1..]) == multiset(t) - multiset{s[0]};
  }

  /** What sorting is for: two lists of the same signers' keys, in any order and in any objects, come
      back as one sequence of points. */
  method SortBoth(pubkeys: seq<Pointer>, others: seq<Pointer>, memory: nat -> Point)
    returns (r: seq<Pointer>, t: seq<Pointer>)
    requires multiset(Points(Addresses(pubkeys), memory)) == multiset(Points(Addresses(others), memory))
    requires forall p :: p in pubkeys ==> memory(p.address) != 0
    ensures Points(Addresses(r), memory) == Points(Addresses(t), memory)
    ensures multiset(Points(Addresses(r), memory)) == multiset(Points(Addresses(pubkeys), memory))
  {
    r := PubkeySort(pubkeys, memory);
    t := PubkeySort(others, memory);
    PointsFollow(Addresses(r), Addresses(pubkeys), memory);
    PointsFollow(Addresses(t), Addresses(others), memory);
    SortingForgetsTheOrder(r, t, memory);
  }
}
