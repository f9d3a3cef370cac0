/** BIP340 signing: one signature, its nonce, and the signer that holds a keypair across many. */
module Ssa {
  import opened Results
  import opened Group
  import opened Memory
  import Bip340
  import Keys
  import XOnlyKeys

  /** The key BIP340 signs with, and the nonce derived from it. */
  function NonceOf(msg: Octets, d: Scalar, aux: Octets): Word {
    H.nonce(Even(d), X(d), msg, aux)
  }

  /** BIP340 "Default Signing" without its last step; None is the C call failing on a zero nonce. */
  function SignCall(msg: Octets, d: Scalar, aux: Octets): Option<Bip340.Signature> {
    var k := Reduced(NonceOf(msg, d, aux));
    if k == 0 then None
    else
      var e := H.challenge(X(k), X(d), msg);
      Some(Bip340.Signature(X(k), Add(Even(k), Mul(e, Even(d)))))
  }

  /** Which nonce: of the key that signs, the same for a private key and its negation, since the two have
      one x; and of the private key itself where its point has even y. */
  lemma NonceOfTheSigningKey(msg: Octets, d: Nonzero, aux: Octets)
    ensures NonceOf(msg, d, aux) == NonceOf(msg, Neg(d), aux) && SignCall(msg, d, aux) == SignCall(msg, Neg(d), aux)
    ensures NonceOf(msg, d, aux) == H.nonce(if Odd(d) then C.n - d else d, X(d), msg, aux)
  {
    SameX(d, Neg(d));
    EvenPoint(d);
  }

  /** When a key signs, and what: exactly where the nonce is not 0 modulo n, and then x of R first. */
  lemma SignCallExact(msg: Octets, d: Nonzero, aux: Octets)
    ensures SignCall(msg, d, aux).Some? <==> Reduced(NonceOf(msg, d, aux)) != 0
    ensures SignCall(msg, d, aux).Some? ==>
              var k := Reduced(NonceOf(msg, d, aux));
              var e := H.challenge(X(k), X(d), msg);
              var sig := SignCall(msg, d, aux).value;
              sig.r == X(k) && sig.s == Add(if Odd(k) then Neg(k) else k, Mul(e, if Odd(d) then Neg(d) else d))
  {
    hide Reduced, Mul, Add;
  }

  /** The last step of "Default Signing" never aborts: for keys of either parity. */
  lemma SignedVerifies(msg: Octets, d: Nonzero, aux: Octets)
    ensures var r := SignCall(msg, d, aux);
            r.Some? ==> Bip340.Verify(X(d), msg, r.value) && X(Reduced(NonceOf(msg, d, aux))) == r.value.r
  {
    var k := Reduced(NonceOf(msg, d, aux));
    if k != 0 {
      EvenPoint(k);
      Bip340.VerifyEquation(d, msg, X(k), Even(k), SignCall(msg, d, aux).value.s);
    }
  }

  /** A taproot key path spend: the tweaked private key signs for the tweaked x. */
  lemma TweakedKeySigns(msg: Octets, d: Nonzero, tweak: int, aux: Octets)
    requires Fits(tweak) && XOnlyKeys.TweakedSecret(d, tweak).Some?
    ensures var out := XOnlyKeys.TweakAddX(Keys.XOnly(X(d)), tweak);
            var sig := SignCall(msg, XOnlyKeys.TweakedSecret(d, tweak).value, aux);
            out.Ok? && (sig.Some? ==> Bip340.Verify(out.value.0, msg, sig.value))
  {
    XOnlyKeys.KeyPathCommutes(d, tweak);
    SignedVerifies(msg, XOnlyKeys.TweakedSecret(d, tweak).value, aux);
  }

  // ------------------------------------------------------------ the stateless calls

  /** What `sign` (with `hashed`, for a 32-octet message) and `sign_custom` answer for a valid key. */
  function SignAnswer(hashed: bool, msg: Octets, d: Scalar, aux: Octets): Result<Bip340.Signature> {
    if (hashed && |msg| != 32) || |aux| != 32 then Raised(ValueError)
    else match SignCall(msg, d, aux)
         case None => Raised(RuntimeError)
         case Some(sig) => Ok(sig)
  }

  lemma SignAnswerExact(hashed: bool, msg: Octets, d: int, aux: Octets)
    ensures 0 < d < C.n ==>
      SignAnswer(hashed, msg, d, aux)
      == if |aux| != 32 || (hashed && |msg| != 32) then Raised(ValueError)
         else if SignCall(msg, d, aux).None? then Raised(RuntimeError)
         else Ok(SignCall(msg, d, aux).value)
    ensures AuxCopy(hashed, aux) == if hashed || |aux| != 32 then [] else aux
  {
    hide SignCall;
  }

  /** The copy of its auxiliary randomness that `_sign_custom` points the C call to. */
  function AuxCopy(hashed: bool, aux: Octets): Octets {
    if !hashed && |aux| == 32 then aux else []
  }

  /** `_sign32` and `_sign_custom`: sign with a keypair somebody else owns, and check the answer. */
  method SignWith(arena: Arena, hashed: bool, msg: Octets, keypair: array<int>, aux: Octets, verify: bool)
    returns (r: Result<Bip340.Signature>)
    requires keypair.Length == 2 && 0 < keypair[0] < C.n && keypair[1] == keypair[0]
    modifies arena
    ensures Adds(arena, AuxCopy(hashed, aux))
    ensures r == SignAnswer(hashed, msg, keypair[0], aux)
    ensures r.Ok? ==> Bip340.Verify(X(keypair[1]), msg, r.value)
  {
    if (hashed && |msg| != 32) || |aux| != 32 { return Raised(ValueError); }
    if !hashed { var _ := arena.New(aux); }
    var sig := SignCall(msg, keypair[0], aux);
    if sig.None? { return Raised(RuntimeError); }
    SignedVerifies(msg, keypair[0], aux);
    if verify && !Bip340.Verify(X(keypair[1]), msg, sig.value) { return Raised(RuntimeError); }
    return Ok(sig.value);
  }

  /** `sign` and `sign_custom`: the keypair is built for the call and overwritten on every exit; the
      auxiliary randomness `sign_custom` copied is not. */
  method Sign(arena: Arena, hashed: bool, msg: Octets, prvkey: ScalarArg, aux: Octets, verify: bool)
    returns (r: Result<Bip340.Signature>)
    modifies arena
    ensures Kept(prvkey) && LeavesBehind(arena, if IsSecretKey(ValueOf(prvkey)) then AuxCopy(hashed, aux) else [])
    ensures hashed ==> LeavesOnlyZeros(arena)
    ensures !hashed && |aux| == 32 && 0 < ValueOf(prvkey) < C.n ==>
      arena.owned != [] && arena.owned[|arena.owned| - 1][..] == aux
    ensures var d := ValueOf(prvkey);
      r == if !(0 < d < C.n) || |aux| != 32 || (hashed && |msg| != 32) then Raised(ValueError)
           else if SignCall(msg, d, aux).None? then Raised(RuntimeError)
           else Ok(SignCall(msg, d, aux).value)
  {
    SignAnswerExact(hashed, msg, ValueOf(prvkey), aux);
    r := SignAndWipe(arena, hashed, msg, prvkey, aux, verify);
  }

  method SignAndWipe(arena: Arena, hashed: bool, msg: Octets, prvkey: ScalarArg, aux: Octets, verify: bool)
    returns (r: Result<Bip340.Signature>)
    modifies arena
    ensures Kept(prvkey) && LeavesBehind(arena, if IsSecretKey(ValueOf(prvkey)) then AuxCopy(hashed, aux) else [])
    ensures var d := ValueOf(prvkey);
      r == if IsSecretKey(d) then SignAnswer(hashed, msg, d, aux) else Raised(ValueError)
  {
    hide SignAnswer, SignCall, AuxCopy;
    var keypair := Keypair(arena, prvkey);
    if keypair.Raised? { return Raised(keypair.error); }
    assert keypair.value[..] == [ValueOf(prvkey), ValueOf(prvkey)];
    r := SignWith(arena, hashed, msg, keypair.value, aux, verify);
    Wipe(keypair.value);
    OneCopyLeft(arena, keypair.value, AuxCopy(hashed, aux));
  }

  twostate lemma OneCopyLeft(arena: Arena, new keypair: array<int>, new content: seq<int>)
    requires fresh(keypair) && AllZero(keypair) && |arena.owned| > |old(arena.owned)|
    requires old(arena.owned) + [keypair] <= arena.owned
    requires |arena.owned| == |old(arena.owned)| + (if content == [] then 1 else 2)
    requires content != [] ==>
      fresh(arena.owned[|arena.owned| - 1]) && arena.owned[|arena.owned| - 1][..] == content
    ensures LeavesBehind(arena, content)
  {
    var n := |old(arena.owned)|;
    assert arena.owned[n] == (old(arena.owned) + [keypair])[n] == keypair;
    if content != [] {
      var last := arena.owned[n + 1];
      assert AllZero(last) <==> IsZero(content) by {
        assert forall i :: 0 <= i < last.Length ==> last[i] == content[i];
      }
    }
  }

  /** `nonce_bip340`: negated key where the point has odd y; a missing aux is 32 zero octets. */
  method NonceBip340(arena: Arena, msg: Octets, prvkey: ScalarArg, aux: Option<Octets>, into: Option<Destination>)
    returns (r: Result<Option<seq<int>>>)
    modifies arena, if into.Some? then {into.value.buffer} else {}
    ensures LeavesOnlyZeros(arena) && KeptBut(prvkey, into)
    ensures var d := old(ValueOf(prvkey));
      if IsSecretKey(d) && (aux.Some? ==> |aux.value| == 32)
      then Delivered(r, [NonceOf(msg, d, aux.GetOr(seq(32, i => 0)))], into)
      else Refused(r, into)
  {
    var derived := SigningKey(arena, prvkey);
    if derived.Raised? { return Raised(derived.error); }
    var (x, key) := derived.value;
    if aux.Some? && |aux.value| != 32 { return Raised(ValueError); }
    var nonce := arena.New([H.nonce(key, x, msg, aux.GetOr(seq(32, i => 0)))]);
    r := Take(nonce, into);
  }

  /** The x of the public key, and the private key BIP340 signs with. */
  method SigningKey(arena: Arena, prvkey: ScalarArg) returns (r: Result<(int, Scalar)>)
    modifies arena
    ensures LeavesOnlyZeros(arena) && Kept(prvkey)
    ensures var d := ValueOf(prvkey);
      r == if IsSecretKey(d) then Ok((X(d), Even(d))) else Raised(ValueError)
  {
    var scalar := Scalar32(prvkey);
    if scalar.Raised? { return Raised(scalar.error); }
    var key := Load(scalar.value);
    if !IsSecretKey(key) { return Raised(ValueError); }
    var x, parity := X(key), Odd(key);
    if parity {
      var negated := Keys.PrvkeyNegate(arena, prvkey, None);
      key := negated.value.value[0];
    }
    return Ok((x, key));
  }

  // ------------------------------------------------------------ the signer

  datatype Op =
    | SignOp(hashed: bool, msg: Octets, aux: Octets)
    | PubkeyOp
    | WipeOp                       // `wipe`, and the end of a `with` block

  datatype Answer =
    | Signed(signature: Result<Bip340.Signature>)
    | Key(key: Result<(int, bool)>)
    | Nothing

  type Held = Option<Nonzero>

  function HeldAfter(held: Held, op: Op): Held {
    if op.WipeOp? then None else held
  }

  function Answers(held: Held, op: Op): Answer {
    match op
    case WipeOp => Nothing
    case SignOp(hashed, msg, aux) =>
      Signed(if held.None? then Raised(ValueError) else SignAnswer(hashed, msg, held.value, aux))
    case PubkeyOp => Key(if held.None? then Raised(ValueError) else Ok((X(held.value), Odd(held.value))))
  }

  class Signer {
    var keypair: array?<int>

    ghost predicate Valid()
      reads this, keypair
    {
      keypair != null ==> keypair.Length == 2 && 0 < keypair[0] < C.n && keypair[1] == keypair[0]
    }

    ghost function Holds(): Held
      requires Valid()
      reads this, keypair
    {
      if keypair == null then None else Some(keypair[0])
    }

    constructor (keypair: array<int>)
      requires keypair.Length == 2 && 0 < keypair[0] < C.n && keypair[1] == keypair[0]
      ensures Valid() && this.keypair == keypair
    {
      this.keypair := keypair;
    }

    static method Create(arena: Arena, prvkey: ScalarArg) returns (r: Result<Signer>)
      modifies arena
      ensures Kept(prvkey) && (r.Ok? <==> IsSecretKey(ValueOf(prvkey)))
      ensures r.Ok? ==>
        && fresh(r.value) && r.value.Valid() && r.value.Holds() == Some(ValueOf(prvkey))
        && fresh(r.value.keypair) && arena.owned == old(arena.owned) + [r.value.keypair]
      ensures r.Raised? ==> r.error == ValueError && LeavesOnlyZeros(arena)
    {
      var keypair := Keypair(arena, prvkey);
      if keypair.Raised? { return Raised(keypair.error); }
      assert keypair.value[..] == [ValueOf(prvkey), ValueOf(prvkey)];
      var signer := new Signer(keypair.value);
      return Ok(signer);
    }

    method SignMessage(arena: Arena, hashed: bool, msg: Octets, aux: Octets, verify: bool)
      returns (r: Result<Bip340.Signature>)
      requires Valid()
      modifies arena
      ensures Adds(arena, if keypair == null then [] else AuxCopy(hashed, aux))
      ensures Signed(r) == Answers(Holds(), SignOp(hashed, msg, aux))
      ensures r.Ok? ==> Bip340.Verify(X(Holds().value), msg, r.value)
    {
      if keypair == null { return Raised(ValueError); }
      r := SignWith(arena, hashed, msg, keypair, aux, verify);
    }

    method Pubkey() returns (r: Result<(int, bool)>)
      requires Valid()
      ensures Key(r) == Answers(Holds(), PubkeyOp)
      ensures r == match Holds() case None => Raised(ValueError) case Some(d) => Ok((X(d), Odd(d)))
    {
      if keypair == null { return Raised(ValueError); }
      return Ok((X(keypair[1]), Odd(keypair[1])));
    }

    method WipeHeld()
      requires Valid()
      modifies this, keypair
      ensures Valid() && Holds() == HeldAfter(old(Holds()), WipeOp)
      ensures old(keypair) != null ==> AllZero(old(keypair))
    {
      if keypair != null {
        Wipe(keypair);
        keypair := null;
      }
    }
  }

  function HeldAfterAll(held: Held, ops: seq<Op>): Held {
    if ops == [] then held else HeldAfter(HeldAfterAll(held, ops[..|ops| - 1]), ops[|ops| - 1])
  }

  /** What the functions without an object answer of one private key. */
  function Stateless(d: Nonzero, op: Op): Answer {
    match op
    case WipeOp => Nothing
    case SignOp(hashed, msg, aux) => Signed(SignAnswer(hashed, msg, d, aux))
    case PubkeyOp => Key(Ok((X(d), Odd(d))))
  }

  /** Every run refines the stateless functions: before the first wipe each answer is theirs and every
      signature verifies under the key the signer answers; after it everything but a wipe raises. */
  lemma {:induction false} EveryRunRefines(d: Nonzero, ops: seq<Op>, next: Op)
    ensures var held := HeldAfterAll(Some(d), ops);
            if WipeOp in ops
            then Answers(held, next) == (match next case WipeOp => Nothing case PubkeyOp => Key(Raised(ValueError))
                                                    case SignOp(_, _, _) => Signed(Raised(ValueError)))
            else
              && Answers(held, next) == Stateless(d, next)
              && (next.SignOp? && Answers(held, next).signature.Ok? ==>
                    Bip340.Verify(Answers(held, PubkeyOp).key.value.0, next.msg, Answers(held, next).signature.value))
  {
    HeldUntilWiped(d, ops);
    if next.SignOp? { SignedVerifies(next.msg, d, next.aux); }
  }

  lemma {:induction false} HeldUntilWiped(d: Nonzero, ops: seq<Op>)
    ensures HeldAfterAll(Some(d), ops) == if WipeOp in ops then None else Some(d)
  {
    if ops != [] {
      var rest := ops[..|ops| - 1];
      HeldUntilWiped(d, rest);
      assert ops == rest + [ops[|ops| - 1]];
    }
  }

  // ------------------------------------------------------------ runs over the object

  /** One operation on a signer.  A wipe overwrites the keypair it drops. */
  method Perform(arena: Arena, signer: Signer, op: Op) returns (answer: Answer)
    requires signer.Valid()
    modifies arena, signer, signer.keypair
    ensures Adds(arena, if old(signer.keypair) == null || !op.SignOp? then [] else AuxCopy(op.hashed, op.aux))
    ensures signer.Valid() && answer == Answers(old(signer.Holds()), op)
    ensures signer.Holds() == HeldAfter(old(signer.Holds()), op)
    ensures signer.keypair == if op.WipeOp? then null else old(signer.keypair)
    ensures op.WipeOp? && old(signer.keypair) != null ==> AllZero(old(signer.keypair))
  {
    match op
    case SignOp(hashed, msg, aux) =>
      var r := signer.SignMessage(arena, hashed, msg, aux, true);
      answer := Signed(r);
    case PubkeyOp =>
      var r := signer.Pubkey();
      answer := Key(r);
    case WipeOp =>
      signer.WipeHeld();
      answer := Nothing;
  }

  /** What a caller holding the private key itself would have been answered, up to the first wipe. */
  function Expected(d: Nonzero, ops: seq<Op>, i: nat): Answer
    requires i < |ops|
  {
    if WipeOp !in ops[..i] || ops[i].WipeOp? then Stateless(d, ops[i])
    else if ops[i].PubkeyOp? then Key(Raised(ValueError))
    else Signed(Raised(ValueError))
  }

  lemma ExpectedIsAnswered(d: Nonzero, ops: seq<Op>, i: nat)
    requires i < |ops|
    ensures Answers(HeldAfterAll(Some(d), ops[..i]), ops[i]) == Expected(d, ops, i)
    ensures var e := Expected(d, ops, i);
            e.Signed? && e.signature.Ok? ==> ops[i].SignOp? && Bip340.Verify(X(d), ops[i].msg, e.signature.value)
  {
    hide Bip340.Verify, HeldAfterAll;
    EveryRunRefines(d, ops[..i], ops[i]);
    if ops[i].SignOp? { SignedVerifies(ops[i].msg, d, ops[i].aux); }
  }

  /** The buffer is a copy of the auxiliary randomness of one of the messages of any length. */
  ghost predicate IsAuxOf(buffer: array<int>, ops: seq<Op>)
    reads buffer
  {
    exists j :: 0 <= j < |ops| && ops[j].SignOp? && !ops[j].hashed && buffer[..] == ops[j].aux
  }

  method PerformAll(arena: Arena, signer: Signer, ops: seq<Op>, ghost d: Nonzero) returns (answers: seq<Answer>)
    requires signer.Valid() && signer.Holds() == Some(d)
    modifies arena, signer, signer.keypair
    ensures old(arena.owned) <= arena.owned
    ensures forall m :: |old(arena.owned)| <= m < |arena.owned| ==>
      fresh(arena.owned[m]) && IsAuxOf(arena.owned[m], ops)
    ensures |answers| == |ops| && forall i :: 0 <= i < |ops| ==> answers[i] == Expected(d, ops, i)
    ensures WipeOp in ops ==> AllZero(old(signer.keypair))
  {
    hide Expected, Answers, HeldAfterAll, IsAuxOf;
    ghost var keypair := signer.keypair;
    answers := [];
    HeldUntilWiped(d, ops[..0]);
    for i := 0 to |ops|
      invariant |answers| == i && signer.Valid() && signer.Holds() == HeldAfterAll(Some(d), ops[..i])
      invariant signer.keypair == (if WipeOp in ops[..i] then null else keypair)
      invariant WipeOp in ops[..i] ==> AllZero(keypair)
      invariant old(arena.owned) <= arena.owned
      invariant forall m :: |old(arena.owned)| <= m < |arena.owned| ==>
        fresh(arena.owned[m]) && allocated(arena.owned[m]) && IsAuxOf(arena.owned[m], ops)
      invariant forall j :: 0 <= j < i ==> answers[j] == Expected(d, ops, j)
    {
      assert ops[..i + 1] == ops[..i] + [ops[i]];
      HeldUntilWiped(d, ops[..i]);
      HeldUntilWiped(d, ops[..i + 1]);
      ExpectedIsAnswered(d, ops, i);
      ghost var before := |arena.owned|;
      var answer := Perform(arena, signer, ops[i]);
      if before < |arena.owned| { OfThisOp(arena.owned[before], ops, i); }
      answers := answers + [answer];
    }
    assert ops[..|ops|] == ops;
  }

  lemma OfThisOp(buffer: array<int>, ops: seq<Op>, i: nat)
    requires i < |ops| && ops[i].SignOp? && !ops[i].hashed && buffer[..] == ops[i].aux
    ensures IsAuxOf(buffer, ops)
  {}

  /** A signer's whole life, from the private key: every answer is the stateless one until the first
      wipe, every signature verifies under the private key's x, and once a wipe is among the operations
      no buffer is left holding anything but auxiliary randomness, and none at all where every message
      was a hash. */
  method Life(arena: Arena, prvkey: ScalarArg, ops: seq<Op>) returns (answers: seq<Answer>)
    requires IsSecretKey(ValueOf(prvkey))
    modifies arena
    ensures Kept(prvkey) && |answers| == |ops|
    ensures forall i :: 0 <= i < |ops| ==> answers[i] == Expected(ValueOf(prvkey), ops, i)
    ensures forall i :: 0 <= i < |ops| && answers[i].Signed? && answers[i].signature.Ok? ==>
      ops[i].SignOp? && Bip340.Verify(X(ValueOf(prvkey)), ops[i].msg, answers[i].signature.value)
    ensures WipeOp in ops ==> forall m :: |old(arena.owned)| <= m < |arena.owned| ==>
      AllZero(arena.owned[m]) || IsAuxOf(arena.owned[m], ops)
    ensures WipeOp in ops && (forall op :: op in ops && op.SignOp? ==> op.hashed) ==> LeavesOnlyZeros(arena)
  {
    hide Expected, Bip340.Verify;
    ghost var d := ValueOf(prvkey);
    var made := Signer.Create(arena, prvkey);
    ghost var keypair := made.value.keypair;
    answers := PerformAll(arena, made.value, ops, d);
    assert arena.owned[|old(arena.owned)|] == keypair;
    forall i | 0 <= i < |ops|
      ensures answers[i].Signed? && answers[i].signature.Ok? ==>
        ops[i].SignOp? && Bip340.Verify(X(d), ops[i].msg, answers[i].signature.value)
    {
      ExpectedIsAnswered(d, ops, i);
    }
  }
}
