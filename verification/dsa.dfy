/** What the Python adds to ECDSA: diagnosing a failed self-check, normalizing in place, grinding. */
module Dsa {
  import opened Results
  import opened Group
  import opened SignatureOctets
  import opened Ecdsa
  import Keys
  import Memory

  // ------------------------------------------------------------ the two self-checks

  /** The public key a caller hands in with a signing call; one that libsecp256k1 cannot read is
      possible, because it is taken on trust. */
  datatype GivenKey = NotGiven | Readable(point: Nonzero) | Unreadable

  /** `_checked`. */
  function Checked(z: Scalar, sig: Signature, derived: Nonzero, given: GivenKey): Result<()> {
    if !given.NotGiven? then
      if given.Readable? && Verify(z, sig, given.point) then Ok(())
      else if Verify(z, sig, derived) then Raised(ValueError)
      else Raised(RuntimeError)
    else if !Verify(z, sig, derived) then Raised(RuntimeError)
    else Ok(())
  }

  ghost predicate IsRecovered(z: Scalar, sig: Signature, key: Point) {
    exists id: nat :: id < 4 && Recover(z, sig, id) == Some(key)
  }

  /** The verdict of `_checked` is the place of two keys among the ones recovery walks; a high s, which
      no signing call answers and only a fault can, passes under none. */
  lemma CheckedDiagnosis(z: Scalar, sig: Signature, derived: Nonzero, given: GivenKey)
    ensures var givenPasses := 2 * sig.s < C.n && given.Readable? && IsRecovered(z, sig, given.point);
            var derivedPasses := 2 * sig.s < C.n && IsRecovered(z, sig, derived);
            match Checked(z, sig, derived, given)
            case Ok(_) => givenPasses || (given.NotGiven? && derivedPasses)
            case Raised(ValueError) => !given.NotGiven? && !givenPasses && derivedPasses
            case Raised(e) => e == RuntimeError && !givenPasses && !derivedPasses
  {
    HighIsRefused(z, sig, derived);
    if given.Readable? { HighIsRefused(z, sig, given.point); }
    hide Equation, Recover, Verify, IsHigh, IsRecovered;
    if IsHigh(sig.s) { return; }
    LowIsRecovered(z, sig, derived);
    if given.Readable? { LowIsRecovered(z, sig, given.point); }
  }

  lemma HighIsRefused(z: Scalar, sig: Signature, key: Point)
    ensures IsHigh(sig.s) <==> !(2 * sig.s < C.n)
    ensures IsHigh(sig.s) ==> !Verify(z, sig, key)
  {
    OrderIsOdd();
  }

  lemma LowIsRecovered(z: Scalar, sig: Signature, key: Nonzero)
    requires !IsHigh(sig.s)
    ensures Verify(z, sig, key) <==> IsRecovered(z, sig, key)
  {
    VerifyingKeysAreTheRecovered(z, sig, key);
  }

  /** The comparison of `secp256k1_ec_pubkey_cmp`, for equality: by compressed form, a key that cannot
      be read being 33 zero octets. */
  function Compared(key: GivenKey): Keys.PubkeyOctets {
    if key.Readable? then Keys.Serialize(key.point, true) else Keys.Zeros
  }

  /** `_abort_unless_recovered`. */
  function RecoveredChecked(z: Scalar, sig: Signature, id: nat, derived: Nonzero, given: GivenKey): Result<()> {
    match Recover(z, sig, id)
    case None => Raised(RuntimeError)
    case Some(recovered) =>
      if !given.NotGiven? && Compared(given) == Keys.Serialize(recovered, true) then Ok(())
      else if Keys.Serialize(recovered, true) != Keys.Serialize(derived, true) then Raised(RuntimeError)
      else if !given.NotGiven? then Raised(ValueError)
      else Ok(())
  }

  /** The signature satisfies the equation under this key, and the id names the nonce point it was
      made with. */
  predicate Signs(z: Scalar, sig: Signature, id: nat, key: Nonzero) {
    Equation(z, sig, key) && id == IdOf(NoncePoint(z, sig, key))
  }

  /** Comparing the recovered key subsumes verifying: what returns normally verifies under the key
      compared with, once its s is the lower one, and under the right id; every other case is told apart
      exactly, whichever s came in. */
  lemma RecoveredDiagnosis(z: Scalar, sig: Signature, id: nat, derived: Nonzero, given: GivenKey)
    requires id < 4
    ensures forall key: Nonzero :: Signs(z, sig, id, key) ==> Verify(z, Normalized(sig), key)
    ensures var givenPasses := given.Readable? && Signs(z, sig, id, given.point);
            var derivedPasses := Signs(z, sig, id, derived);
            match RecoveredChecked(z, sig, id, derived, given)
            case Ok(_) => givenPasses || (given.NotGiven? && derivedPasses)
            case Raised(ValueError) => !given.NotGiven? && !givenPasses && derivedPasses
            case Raised(e) => e == RuntimeError && !givenPasses && !derivedPasses
  {
    var recovered := Recover(z, sig, id);
    assert recovered != Some(0);
    hide Equation, Recover, NoncePoint, IdOf, Normalized, Verify;
    forall key: Nonzero | Signs(z, sig, id, key)
      ensures Verify(z, Normalized(sig), key)
    {
      OrderIsOdd();
      NormalizedVerdict(z, sig, key);
    }
    RecoverExact(z, sig, id, derived);
    if given.Readable? { RecoverExact(z, sig, id, given.point); }
    if recovered.Some? {
      SameX(recovered.value, derived);
      if given.Readable? { SameX(recovered.value, given.point); }
    }
  }

  // ------------------------------------------------------------ the signature object

  class SignatureObject {
    var sig: Signature

    constructor (sig: Signature)
      ensures this.sig == sig
    {
      this.sig := sig;
    }

    /** `_normalize_`. */
    method Normalize()
      modifies this
      ensures sig == Normalized(old(sig)) && sig.r == old(sig).r && 2 * sig.s < C.n
      ensures sig.s == if 2 * old(sig).s < C.n then old(sig).s else C.n - old(sig).s
    {
      OrderIsOdd();
      if IsHigh(sig.s) {
        sig := Signature(sig.r, Neg(sig.s));
      }
    }

    /** `_verify_`: with `normalize` the object is left in its lower form and the verdict is the
        equation's, whichever form came in. */
    method VerifyWith(z: Scalar, key: Point, normalize: bool) returns (verified: bool)
      modifies this
      ensures sig == if normalize then Normalized(old(sig)) else old(sig)
      ensures normalize ==> (verified <==> Equation(z, old(sig), key))
      ensures !normalize ==> (verified <==> Equation(z, old(sig), key) && 2 * old(sig).s < C.n)
    {
      NormalizedVerdict(z, sig, key);
      if normalize { Normalize(); }
      verified := Verify(z, sig, key);
    }
  }

  // ------------------------------------------------------------ grinding

  const ATTEMPTS := 0x1_0000_0000

  /** The C signing call with its default nonce function: None where it answers 0. */
  function Sign(msg: Octets, prvkey: int, extra: Octets): Option<Signature> {
    if !Memory.IsSecretKey(prvkey) then None
    else match SignWith(H.digest(msg), prvkey, H.rfc6979(msg, prvkey, extra))
         case None => None
         case Some(pair) => Some(pair.0)
  }

  /** What is signed with what: the digest of the message, and the nonce of the message, the key and the
      entropy; and when. */
  lemma SignExact(msg: Octets, prvkey: int, extra: Octets, sig: Signature)
    ensures Sign(msg, prvkey, extra) == Some(sig)
            <==> 0 < prvkey < C.n
                 && exists id ::
                      SignWith(H.digest(msg), prvkey, H.rfc6979(msg, prvkey, extra)) == Some((sig, id))
  {
    if 0 < prvkey < C.n {
      var signed := SignWith(H.digest(msg), prvkey, H.rfc6979(msg, prvkey, extra));
      if signed.Some? { assert signed == Some((signed.value.0, signed.value.1)); }
    }
  }

  lemma SignIsSound(msg: Octets, prvkey: int, extra: Octets)
    ensures var r := Sign(msg, prvkey, extra); r.Some? ==> Verify(H.digest(msg), r.value, prvkey)
  {
    if Memory.IsSecretKey(prvkey) {
      var k := H.rfc6979(msg, prvkey, extra);
      if SignWith(H.digest(msg), prvkey, k).Some? { SignedVerifies(H.digest(msg), prvkey, k); }
    }
  }

  /** A counter as four octets, little endian. */
  function LittleEndian(counter: nat): Octets {
    [counter % 256, counter / 256 % 256, counter / 65536 % 256, counter / 16777216 % 256]
  }

  /** The entropy of a retry: the counter, then 28 zero octets. */
  function Entropy(counter: nat): Octets {
    LittleEndian(counter) + seq(28, i => 0)
  }

  /** The counter reads back from the first four octets, the least significant first, and the others
      are zero. */
  lemma EntropyIsTheCounter(i: nat)
    requires i < ATTEMPTS
    ensures var b := Entropy(i);
            && |b| == 32 && (forall j :: 0 <= j < 4 ==> 0 <= b[j] < 256) && (forall j :: 4 <= j < 32 ==> b[j] == 0)
            && i == b[0] + 256 * b[1] + 65536 * b[2] + 16777216 * b[3]
  {
    LittleEndianReads(i);
    assert forall j :: 0 <= j < 4 ==> Entropy(i)[j] == LittleEndian(i)[j];
  }

  lemma EntropyTellsCountersApart(i: nat, j: nat)
    requires i < ATTEMPTS && j < ATTEMPTS
    ensures |Entropy(i)| == 32 && (Entropy(i) == Entropy(j) <==> i == j)
  {
    var a, b := Entropy(i), Entropy(j);
    if a == b {
      assert a[0] == b[0] && a[1] == b[1] && a[2] == b[2] && a[3] == b[3];
      LittleEndianReads(i);
      LittleEndianReads(j);
    }
  }

  lemma LittleEndianReads(i: nat)
    requires i < ATTEMPTS
    ensures var b := LittleEndian(i); i == b[0] + 256 * b[1] + 65536 * b[2] + 16777216 * b[3]
  {
    var x := i / 256;
    var y := x / 256;
    assert i / 65536 == y;
    assert i / 16777216 == y / 256;
  }

  /** The i-th signature of the sequence: plain, then one per counter. */
  function Attempt(msg: Octets, prvkey: int, i: nat): Option<Signature> {
    Sign(msg, prvkey, if i == 0 then [] else Entropy(i))
  }

  ghost predicate HighBefore(msg: Octets, prvkey: int, i: nat) {
    forall j: nat :: j < i ==> Attempt(msg, prvkey, j).Some? && !IsLowR(Attempt(msg, prvkey, j).value)
  }

  ghost predicate IsFirstLow(msg: Octets, prvkey: int, i: nat) {
    i < ATTEMPTS && Attempt(msg, prvkey, i).Some? && IsLowR(Attempt(msg, prvkey, i).value) && HighBefore(msg, prvkey, i)
  }

  ghost predicate IsGround(msg: Octets, prvkey: int, sig: Signature) {
    exists i: nat :: IsFirstLow(msg, prvkey, i) && Attempt(msg, prvkey, i) == Some(sig)
  }

  /** There is at most one such attempt, and a high run up to it stops there. */
  lemma OneFirstLow(msg: Octets, prvkey: int, i: nat, j: nat)
    ensures IsFirstLow(msg, prvkey, i) && HighBefore(msg, prvkey, j) ==>
              j <= i && (IsFirstLow(msg, prvkey, j) ==> i == j)
  {}

  method WriteCounter(entropy: array<int>, counter: nat)
    requires entropy.Length == 32 && forall i :: 4 <= i < 32 ==> entropy[i] == 0
    modifies entropy
    ensures entropy[..] == Entropy(counter)
  {
    var octets := LittleEndian(counter);
    entropy[0], entropy[1], entropy[2], entropy[3] := octets[0], octets[1], octets[2], octets[3];
  }

  /** `_grind`: the object ends as the least attempt with a low r.  Without one below 2^32 the
      counter no longer fits its four octets. */
  method Grind(target: SignatureObject, msg: Octets, prvkey: int) returns (r: Result<()>)
    requires Attempt(msg, prvkey, 0) == Some(target.sig)
    modifies target
    ensures r.Ok? <==> exists sig :: IsGround(msg, prvkey, sig)
    ensures r.Ok? ==> IsGround(msg, prvkey, target.sig)
    ensures r.Raised? ==> r.error == OverflowError || r.error == ValueError
    ensures r == Raised(OverflowError) ==> HighBefore(msg, prvkey, 0x1_0000_0000)
    ensures r == Raised(ValueError) ==>
      exists i: nat :: i < ATTEMPTS && Attempt(msg, prvkey, i).None? && HighBefore(msg, prvkey, i)
  {
    hide IsLowR, Sign, Attempt;
    forall i: nat, j: nat | IsFirstLow(msg, prvkey, i) && HighBefore(msg, prvkey, j)
      ensures j <= i && (IsFirstLow(msg, prvkey, j) ==> i == j)
    {
      OneFirstLow(msg, prvkey, i, j);
    }
    var entropy := new int[32](i => 0);
    var counter := 0;
    while !IsLowR(target.sig)
      invariant counter < ATTEMPTS && Attempt(msg, prvkey, counter) == Some(target.sig)
      invariant HighBefore(msg, prvkey, counter)
      invariant forall i :: 4 <= i < 32 ==> entropy[i] == 0
      decreases ATTEMPTS - counter
    {
      counter := counter + 1;
      if counter == ATTEMPTS { return Raised(OverflowError); }
      WriteCounter(entropy, counter);
      assert forall i :: 4 <= i < 32 ==> entropy[i] == entropy[..][i];
      AttemptIs(msg, prvkey, counter);
      var signed := Sign(msg, prvkey, entropy[..]);
      if signed.None? { return Raised(ValueError); }
      target.sig := signed.value;
    }
    assert IsFirstLow(msg, prvkey, counter);
    assert IsGround(msg, prvkey, target.sig);
    return Ok(());
  }

  lemma AttemptIs(msg: Octets, prvkey: int, i: nat)
    requires i > 0
    ensures Attempt(msg, prvkey, i) == Sign(msg, prvkey, Entropy(i))
  {}

  // ------------------------------------------------------------ signing

  /** The signature the call settles on before it is checked. */
  ghost predicate IsSettled(msg: Octets, d: int, aux: Option<Octets>, grind: bool, sig: Signature) {
    if grind then IsGround(msg, d, sig) else Sign(msg, d, aux.GetOr([])) == Some(sig)
  }

  lemma SettledIs(msg: Octets, d: int, aux: Option<Octets>, grind: bool, sig: Signature)
    requires IsSettled(msg, d, aux, grind, sig) && !(grind && aux.Some?)
    ensures Sign(msg, d, aux.GetOr([])).Some? && Verify(H.digest(msg), sig, d) && Memory.IsSecretKey(d)
    ensures forall other :: IsSettled(msg, d, aux, grind, other) ==> other == sig
  {
    PlainFirst(msg, d);
    hide Sign, Verify, IsGround;
    if grind {
      GroundIs(msg, d, sig);
    } else {
      SignIsSound(msg, d, aux.GetOr([]));
      SignsWithKey(msg, d, aux.GetOr([]));
    }
  }

  lemma UnfitSettlesNothing(msg: Octets, d: int, aux: Option<Octets>, grind: bool)
    requires !Memory.Fits(d)
    ensures !(grind && aux.Some?) ==> forall sig :: !IsSettled(msg, d, aux, grind, sig)
  {
    hide IsSettled;
    assert IsCurve(C);
    forall sig | !(grind && aux.Some?) && IsSettled(msg, d, aux, grind, sig)
      ensures false
    {
      SettledIs(msg, d, aux, grind, sig);
    }
  }

  lemma SignsWithKey(msg: Octets, prvkey: int, extra: Octets)
    ensures Sign(msg, prvkey, extra).Some? ==> Memory.IsSecretKey(prvkey)
  {}

  /** What the self-check asks of a sound signature. */
  predicate Accepted(z: Scalar, sig: Signature, given: GivenKey) {
    given.NotGiven? || (given.Readable? && Verify(z, sig, given.point))
  }

  /** `_sign_`.  A signature that comes back verifies under the signer's key and, where one was
      given, under that; a fault is never reported, and a wrong key always is. */
  method SignChecked(msg: Octets, prvkey: Memory.ScalarArg, aux: Option<Octets>, grind: bool, verify: bool,
                     given: GivenKey) returns (r: Result<SignatureObject>)
    ensures r != Raised(RuntimeError) && Memory.Kept(prvkey)
    ensures r.Ok? <==>
      && |msg| == 32 && (aux.Some? ==> |aux.value| == 32) && !(grind && aux.Some?) && (given.NotGiven? || verify)
      && exists sig ::
           IsSettled(msg, Memory.ValueOf(prvkey), aux, grind, sig) && Accepted(H.digest(msg), sig, given)
    ensures r.Ok? ==>
      && fresh(r.value) && IsSettled(msg, Memory.ValueOf(prvkey), aux, grind, r.value.sig)
      && 0 < Memory.ValueOf(prvkey) < C.n && Verify(H.digest(msg), r.value.sig, Memory.ValueOf(prvkey))
      && (given.Readable? ==> Verify(H.digest(msg), r.value.sig, given.point)) && !given.Unreadable?
  {
    hide Verify, IsGround, Sign, IsSettled;
    var scalar := Memory.Scalar32(prvkey);
    if scalar.Raised? {
      UnfitSettlesNothing(msg, Memory.ValueOf(prvkey), aux, grind);
      return Raised(scalar.error);
    }
    var d := Memory.Load(scalar.value);
    if |msg| != 32 || (grind && aux.Some?) || (!given.NotGiven? && !verify) { return Raised(ValueError); }
    if aux.Some? && |aux.value| != 32 { return Raised(ValueError); }
    var settled := Settle(msg, d, aux, grind);
    if settled.Raised? { return Raised(settled.error); }
    SettledIs(msg, d, aux, grind, settled.value.sig);
    if verify {
      var checked := Checked(H.digest(msg), settled.value.sig, d, given);
      if checked.Raised? { return Raised(checked.error); }
    }
    assert IsSettled(msg, Memory.ValueOf(prvkey), aux, grind, settled.value.sig)
           && Accepted(H.digest(msg), settled.value.sig, given);
    return Ok(settled.value);
  }

  /** The signing call, and the grinding where it is asked for. */
  method Settle(msg: Octets, d: int, aux: Option<Octets>, grind: bool) returns (r: Result<SignatureObject>)
    requires !(grind && aux.Some?)
    ensures r.Ok? <==> exists sig :: IsSettled(msg, d, aux, grind, sig)
    ensures r.Ok? ==> fresh(r.value) && IsSettled(msg, d, aux, grind, r.value.sig)
    ensures r.Raised? ==> r.error != RuntimeError
  {
    hide IsGround, Sign, Attempt;
    PlainFirst(msg, d);
    forall sig | IsGround(msg, d, sig)
      ensures Sign(msg, d, []).Some?
    {
      GroundIs(msg, d, sig);
    }
    var signed := Sign(msg, d, aux.GetOr([]));
    if signed.None? { return Raised(ValueError); }
    var target := new SignatureObject(signed.value);
    if grind {
      var ground := Grind(target, msg, d);
      if ground.Raised? { return Raised(ground.error); }
    }
    assert IsSettled(msg, d, aux, grind, target.sig);
    return Ok(target);
  }

  lemma PlainFirst(msg: Octets, prvkey: int)
    ensures Attempt(msg, prvkey, 0) == Sign(msg, prvkey, [])
    ensures Sign(msg, prvkey, []).Some? ==> Memory.IsSecretKey(prvkey)
  {}

  lemma GroundIs(msg: Octets, prvkey: int, sig: Signature)
    requires IsGround(msg, prvkey, sig)
    ensures Sign(msg, prvkey, []).Some? && Verify(H.digest(msg), sig, prvkey)
    ensures forall other :: IsGround(msg, prvkey, other) ==> other == sig
  {
    hide Sign, IsLowR, Verify, Entropy;
    var i: nat :| IsFirstLow(msg, prvkey, i) && Attempt(msg, prvkey, i) == Some(sig);
    SignIsSound(msg, prvkey, if i == 0 then [] else Entropy(i));
    assert i > 0 ==> Attempt(msg, prvkey, 0).Some?;
    forall other | IsGround(msg, prvkey, other)
      ensures other == sig
    {
      var j: nat :| IsFirstLow(msg, prvkey, j) && Attempt(msg, prvkey, j) == Some(other);
      OneFirstLow(msg, prvkey, i, j);
    }
  }

  /** `recovery._sign_`: what comes back recovers the signer's key, which is the key given if one is. */
  method SignRecoverable(msg: Octets, prvkey: Memory.ScalarArg, aux: Option<Octets>, verify: bool, given: GivenKey)
    returns (r: Result<(Signature, nat)>)
    ensures r != Raised(RuntimeError) && Memory.Kept(prvkey)
    ensures var d := Memory.ValueOf(prvkey);
      r.Ok? ==>
        && r.value.1 < 4 && Some(r.value.0) == Sign(msg, d, aux.GetOr([]))
        && Recover(H.digest(msg), r.value.0, r.value.1) == Some(d)
        && (given.NotGiven? || given == Readable(d))
    ensures var d := Memory.ValueOf(prvkey);
      r.Ok? <==> && |msg| == 32 && (aux.Some? ==> |aux.value| == 32) && (given.NotGiven? || verify)
                 && Sign(msg, d, aux.GetOr([])).Some? && (given.NotGiven? || given == Readable(d))
  {
    var scalar := Memory.Scalar32(prvkey);
    if scalar.Raised? { return Raised(scalar.error); }
    var d := Memory.Load(scalar.value);
    if |msg| != 32 || (!given.NotGiven? && !verify) { return Raised(ValueError); }
    if aux.Some? && |aux.value| != 32 { return Raised(ValueError); }
    if Sign(msg, d, aux.GetOr([])).None? { return Raised(ValueError); }
    var z, k := H.digest(msg), H.rfc6979(msg, d, aux.GetOr([]));
    var (sig, id) := SignWith(z, d, k).value;
    SignedRecovers(z, d, k);
    hide Recover, SignWith;
    if given.Readable? { SameX(given.point, d); }
    if verify {
      var checked := RecoveredChecked(z, sig, id, d, given);
      if checked.Raised? { return Raised(checked.error); }
    }
    return Ok((sig, id));
  }
}
