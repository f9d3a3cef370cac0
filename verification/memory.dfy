/** The buffers a secret passes through: memory this package allocated, which it overwrites. */
module Memory {
  import opened Results
  import opened Group

  ghost predicate AllZero(buffer: array<int>)
    reads buffer
  {
    forall i :: 0 <= i < buffer.Length ==> buffer[i] == 0
  }

  /** Every scratch buffer the package has allocated, oldest first. */
  class Arena {
    var owned: seq<array<int>>

    constructor ()
      ensures owned == []
    {
      owned := [];
    }

    /** ffi.new with an initializer. */
    method New(content: seq<int>) returns (buffer: array<int>)
      modifies this
      ensures fresh(buffer) && buffer[..] == content
      ensures owned == old(owned) + [buffer]
    {
      buffer := new int[|content|](i requires 0 <= i < |content| => content[i]);
      owned := owned + [buffer];
    }
  }

  /** What a call may leave behind: more buffers, all of them new, and only these holding anything. */
  twostate predicate LeavesOnly(arena: Arena, new held: set<object>)
    reads arena, arena.owned
  {
    && old(arena.owned) <= arena.owned
    && (forall i :: |old(arena.owned)| <= i < |arena.owned| ==> fresh(arena.owned[i]))
    && (forall i :: |old(arena.owned)| <= i < |arena.owned| && arena.owned[i] !in held ==> AllZero(arena.owned[i]))
  }

  twostate predicate LeavesOnlyZeros(arena: Arena)
    reads arena, arena.owned
  {
    LeavesOnly(arena, {})
  }

  predicate IsZero(content: seq<int>) {
    forall i :: 0 <= i < |content| ==> content[i] == 0
  }

  /** A call that fails to overwrite one buffer with this content, if any: nothing is left exactly when
      that content is zeros, and the buffer is the last one made and the only one that holds anything. */
  twostate predicate LeavesBehind(arena: Arena, new content: seq<int>)
    reads arena, arena.owned
  {
    && (LeavesOnlyZeros(arena) <==> IsZero(content))
    && (content != [] ==>
          && arena.owned != [] && arena.owned[|arena.owned| - 1][..] == content
          && LeavesOnly(arena, {arena.owned[|arena.owned| - 1]}))
  }

  /** One more buffer, with this content, or none where there is no content. */
  twostate predicate Adds(arena: Arena, new content: seq<int>)
    reads arena, arena.owned
  {
    if content == [] then arena.owned == old(arena.owned)
    else
      && |arena.owned| == |old(arena.owned)| + 1 && old(arena.owned) <= arena.owned
      && fresh(arena.owned[|arena.owned| - 1]) && arena.owned[|arena.owned| - 1][..] == content
  }

  /** `_zero`, and `wipe`, which is `_zero` on the buffer's own length. */
  method Wipe(buffer: array<int>)
    modifies buffer
    ensures AllZero(buffer) && forall i :: 0 <= i < buffer.Length ==> buffer[i] == 0
  {
    forall i | 0 <= i < buffer.Length {
      buffer[i] := 0;
    }
  }

  /** The `finally` of a call that built a list of buffers. */
  method WipeAll(buffers: seq<array<int>>)
    modifies set b | b in buffers
    ensures forall i :: 0 <= i < |buffers| ==> AllZero(buffers[i])
  {
    for i := 0 to |buffers|
      invariant forall j :: 0 <= j < i ==> AllZero(buffers[j])
    {
      Wipe(buffers[i]);
    }
  }

  /** A destination the caller owns; `usable` is what `into_buffer` asks of anything but the length. */
  datatype Destination = Destination(buffer: array<int>, usable: bool)

  /** Where a computed secret goes: the answer, or the caller's memory, which a refusal leaves alone. */
  twostate predicate Delivered(new r: Result<Option<seq<int>>>, secret: seq<int>, into: Option<Destination>)
    reads if into.Some? then {into.value.buffer} else {}
  {
    match into
    case None => r == Ok(Some(secret))
    case Some(d) =>
      if d.usable && d.buffer.Length == |secret| then r == Ok(None) && d.buffer[..] == secret
      else r == Raised(if d.usable then ValueError else TypeError) && d.buffer[..] == old(d.buffer[..])
  }

  /** A call that raised before it had anything to deliver. */
  twostate predicate Refused(new r: Result<Option<seq<int>>>, into: Option<Destination>)
    reads if into.Some? then {into.value.buffer} else {}
  {
    r == Raised(ValueError) && (into.Some? ==> into.value.buffer[..] == old(into.value.buffer[..]))
  }

  /** `take`: read a secret out of its buffer, into a value or into the caller's memory, and
      overwrite the buffer on every exit, a refused destination included. */
  method Take(buffer: array<int>, into: Option<Destination>) returns (r: Result<Option<seq<int>>>)
    requires into.Some? ==> into.value.buffer != buffer
    modifies buffer, if into.Some? then {into.value.buffer} else {}
    ensures AllZero(buffer)
    ensures Delivered(r, old(buffer[..]), into)
    ensures into.None? ==> r == Ok(Some(old(buffer[..])))
    ensures into.Some? ==>
      && (r == Ok(None) <==> into.value.usable && into.value.buffer.Length == buffer.Length)
      && (r == Raised(TypeError) <==> !into.value.usable)
      && (r == Raised(ValueError) <==> into.value.usable && into.value.buffer.Length != buffer.Length)
      && into.value.buffer[..] == if r == Ok(None) then old(buffer[..]) else old(into.value.buffer[..])
  {
    if into.None? {
      r := Ok(Some(buffer[..]));
    } else if !into.value.usable {
      r := Raised(TypeError);
    } else if into.value.buffer.Length != buffer.Length {
      r := Raised(ValueError);
    } else {
      var view := into.value.buffer;
      forall i | 0 <= i < view.Length {
        view[i] := buffer[i];
      }
      assert view[..] == buffer[..];
      r := Ok(None);
    }
    Wipe(buffer);
  }

  // ------------------------------------------------------------ scalar arguments

  /** A scalar as it is handed in: an int or octets, which are a value, or a cffi array of octets,
      which is memory the caller owns.  One cell stands for 32 octets. */
  datatype ScalarArg = Value(value: int) | Owned(memory: array<int>)

  function Cells(arg: ScalarArg): set<object> {
    if arg.Owned? then {arg.memory} else {}
  }

  /** The number an argument states, or -1 where an array is not one of 32 octets. */
  function ValueOf(arg: ScalarArg): int
    reads Cells(arg)
  {
    match arg
    case Value(value) => value
    case Owned(memory) => if memory.Length == 1 then memory[0] else -1
  }

  function ValuesOf(args: seq<ScalarArg>): seq<int>
    reads set arg, o | arg in args && o in Cells(arg) :: o
  {
    seq(|args|, i requires 0 <= i < |args| reads set arg, o | arg in args && o in Cells(arg) :: o => ValueOf(args[i]))
  }

  /** The caller's memory holds what it held. */
  twostate predicate Kept(arg: ScalarArg)
    reads Cells(arg)
  {
    arg.Owned? ==> arg.memory[..] == old(arg.memory[..])
  }

  twostate predicate AllKept(args: seq<ScalarArg>)
    reads set arg, o | arg in args && o in Cells(arg) :: o
  {
    forall i :: 0 <= i < |args| ==> Kept(args[i])
  }

  twostate lemma KeptValues(args: seq<ScalarArg>)
    requires AllKept(args)
    ensures ValuesOf(args) == old(ValuesOf(args))
  {
    forall i | 0 <= i < |args|
      ensures ValueOf(args[i]) == old(ValueOf(args[i]))
    {
      assert Kept(args[i]);
      if args[i].Owned? && args[i].memory.Length == 1 {
        assert args[i].memory[..][0] == old(args[i].memory[..][0]);
      }
    }
  }

  /** Nor does a call with a destination write to an argument, unless it is that destination. */
  twostate predicate KeptBut(arg: ScalarArg, into: Option<Destination>)
    reads Cells(arg)
  {
    into.None? || arg != Owned(into.value.buffer) ==> Kept(arg)
  }

  predicate Fits(value: int) {
    0 <= value < TWO_256
  }

  predicate IsSecretKey(value: int) {
    0 < value < C.n
  }

  /** `scalar`: what is accepted is handed on as it stands, the caller's own array included. */
  method Scalar32(arg: ScalarArg) returns (r: Result<ScalarArg>)
    ensures r == if 0 <= ValueOf(arg) < TWO_256 then Ok(arg) else Raised(ValueError)
  {
    match arg {
      case Value(value) =>
        if !Fits(value) { return Raised(ValueError); }
      case Owned(memory) =>
        if memory.Length != 1 || !Fits(memory[0]) { return Raised(ValueError); }
    }
    return Ok(arg);
  }

  /** A C call's read through the pointer it is given. */
  method Load(arg: ScalarArg) returns (value: int)
    requires Fits(ValueOf(arg))
    ensures value == ValueOf(arg)
  {
    match arg
    case Value(v) => return v;
    case Owned(memory) => return memory[0];
  }

  /** `scalar_buffer`: memory of the package's own in every case, filled with a copy; it exists before
      the argument is looked at. */
  method ScalarBuffer(arena: Arena, arg: ScalarArg) returns (r: Result<array<int>>)
    modifies arena
    ensures |arena.owned| == |old(arena.owned)| + 1 && old(arena.owned) <= arena.owned
    ensures fresh(arena.owned[|old(arena.owned)|]) && Kept(arg)
    ensures !Fits(ValueOf(arg)) ==> r == Raised(ValueError) && AllZero(arena.owned[|old(arena.owned)|])
    ensures Fits(ValueOf(arg)) ==> r == Ok(arena.owned[|old(arena.owned)|]) && r.value[..] == [ValueOf(arg)]
  {
    var buffer := arena.New([0]);
    var scalar := Scalar32(arg);
    if scalar.Raised? { return Raised(scalar.error); }
    buffer[0] := Load(scalar.value);
    return Ok(buffer);
  }

  /** `keypair`: the private key beside its point, or an untouched buffer and a ValueError. */
  method Keypair(arena: Arena, prvkey: ScalarArg) returns (r: Result<array<int>>)
    modifies arena
    ensures |arena.owned| == |old(arena.owned)| + 1 && old(arena.owned) <= arena.owned
    ensures fresh(arena.owned[|old(arena.owned)|]) && Kept(prvkey)
    ensures !(0 < ValueOf(prvkey) < C.n) ==> r == Raised(ValueError) && AllZero(arena.owned[|old(arena.owned)|])
    ensures 0 < ValueOf(prvkey) < C.n ==>
      r == Ok(arena.owned[|old(arena.owned)|]) && r.value[..] == [ValueOf(prvkey), ValueOf(prvkey)]
  {
    var buffer := arena.New([0, 0]);
    var scalar := Scalar32(prvkey);
    if scalar.Raised? { return Raised(scalar.error); }
    var d := Load(scalar.value);
    if !IsSecretKey(d) { return Raised(ValueError); }
    buffer[0], buffer[1] := d, d;
    return Ok(buffer);
  }
}
