/** X-only keys and the BIP341 tweak: the public side, the private side, and that they agree. */
module XOnlyKeys {
  import opened Results
  import opened Group
  import opened Memory
  import opened Keys
  import Musig

  /** `parse`: 32, 33 or 65 octets name an x, and the key is its even-y point whatever y arrived. */
  function ParseX(octets: PubkeyOctets): Option<Point> {
    if octets.XOnly? then LiftX(octets.x)
    else match Parse(octets)
         case None => None
         case Some(p) => Some(Even(p))
  }

  lemma EverySerializationIsOneKey(p: Point, compressed: bool)
    requires p != 0
    ensures ParseX(XOnly(X(p))) == Some(Even(p))
    ensures ParseX(Serialize(p, compressed)) == ParseX(Serialize(Neg(p), compressed)) == Some(Even(p))
  {
    LiftOfX(p);
    ParseSerialize(p, compressed);
    ParseSerialize(Neg(p), compressed);
    EvenPoint(p);
  }

  /** `tweak_add`: the x of the tweaked key, and the parity of its y. */
  function TweakAddX(octets: PubkeyOctets, tweak: int): Result<(int, bool)> {
    match ParseX(octets)
    case None => Raised(ValueError)
    case Some(p) =>
      if !Fits(tweak) then Raised(ValueError)
      else match Tweaked(p, tweak)
           case None => Raised(ValueError)
           case Some(q) => Ok((X(q), Odd(q)))
  }

  /** `tweak_add_check`: the tweaked x is compared and never parsed. */
  function TweakAddCheck(x: int, parity: int, octets: PubkeyOctets, tweak: int): Result<bool> {
    match ParseX(octets)
    case None => Raised(ValueError)
    case Some(p) =>
      if !(parity == 0 || parity == 1) || !Fits(tweak) then Raised(ValueError)
      else if tweak >= C.n then Ok(false)
      else
        var q := Add(p, tweak);
        Ok(q != 0 && X(q) == x && (parity == 1 <==> Odd(q)))
  }

  lemma CheckIsTweakAdd(x: int, parity: int, octets: PubkeyOctets, tweak: int)
    requires parity == 0 || parity == 1
    ensures TweakAddCheck(x, parity, octets, tweak) == Ok(true) <==> TweakAddX(octets, tweak) == Ok((x, parity == 1))
  {}

  /** And otherwise: ValueError for an argument `tweak_add` would not read or a parity that is no bit, and
      False for everything else, a tweak of n or more and a sum at infinity among it. */
  lemma CheckExact(x: int, parity: int, octets: PubkeyOctets, tweak: int)
    ensures var r := TweakAddCheck(x, parity, octets, tweak);
            && (r.Raised? <==> ParseX(octets).None? || !(parity == 0 || parity == 1) || !(0 <= tweak < TWO_256))
            && (r.Raised? ==> r.error == ValueError)
            && (r == Ok(false) <==> r.Ok? && TweakAddX(octets, tweak) != Ok((x, parity == 1)))
  {}

  /** The BIP341 private key: negated where its point has odd y, then tweaked. */
  function TweakedSecret(d: Scalar, tweak: int): Option<Scalar> {
    if !(0 <= tweak < C.n) || Add(Even(d), tweak) == 0 then None else Some(Add(Even(d), tweak))
  }

  /** The key path commutes: the private tweak fails exactly when the public one does, and otherwise
      its public key is the tweaked key, parity included. */
  lemma KeyPathCommutes(d: Nonzero, tweak: int)
    requires Fits(tweak)
    ensures match TweakedSecret(d, tweak)
            case None => TweakAddX(XOnly(X(d)), tweak) == Raised(ValueError)
            case Some(e) => e != 0 && TweakAddX(XOnly(X(d)), tweak) == Ok((X(e), Odd(e)))
  {
    LiftOfX(d);
  }

  /** The C call: it tweaks the keypair in place, and leaves zeros where it refuses. */
  method KeypairTweakCall(keypair: array<int>, tweak: int) returns (tweaked: bool)
    requires keypair.Length == 2 && 0 < keypair[0] < C.n && keypair[1] == keypair[0] && Fits(tweak)
    modifies keypair
    ensures tweaked <==> TweakedSecret(old(keypair[0]), tweak).Some?
    ensures tweaked ==> var e := TweakedSecret(old(keypair[0]), tweak).value; keypair[..] == [e, e]
    ensures !tweaked ==> AllZero(keypair)
  {
    var e := TweakedSecret(keypair[0], tweak);
    if e.None? {
      Wipe(keypair);
      return false;
    }
    keypair[0], keypair[1] := e.value, e.value;
    return true;
  }

  /** `prvkey_tweak_add`: the tweaked key, or the destination holding it; no scratch buffer keeps it,
      and neither argument is written to unless it is the destination. */
  method PrvkeyTweakAdd(arena: Arena, prvkey: ScalarArg, tweak: ScalarArg, into: Option<Destination>)
    returns (r: Result<Option<seq<int>>>)
    modifies arena, if into.Some? then {into.value.buffer} else {}
    ensures LeavesOnlyZeros(arena) && KeptBut(prvkey, into) && KeptBut(tweak, into)
    ensures var d, t := old(ValueOf(prvkey)), old(ValueOf(tweak));
      if IsSecretKey(d) && TweakedSecret(d, t).Some? then Delivered(r, [TweakedSecret(d, t).value], into)
      else Refused(r, into)
  {
    hide TweakedSecret;
    var keypair := Keypair(arena, prvkey);
    if keypair.Raised? { return Raised(keypair.error); }
    assert keypair.value[..] == [ValueOf(prvkey), ValueOf(prvkey)];
    var buffer := arena.New([0]);
    assert buffer[..][0] == 0;
    r := TweakAndTake(keypair.value, buffer, tweak, into);
    Wipe(keypair.value);
    assert arena.owned == old(arena.owned) + [keypair.value, buffer];
  }

  /** What `prvkey_tweak_add` does between building its keypair and overwriting it. */
  method TweakAndTake(keypair: array<int>, buffer: array<int>, tweak: ScalarArg, into: Option<Destination>)
    returns (r: Result<Option<seq<int>>>)
    requires keypair.Length == 2 && 0 < keypair[0] < C.n && keypair[1] == keypair[0]
    requires buffer.Length == 1 && buffer[0] == 0
    requires buffer != keypair && (into.Some? ==> into.value.buffer != buffer && into.value.buffer != keypair)
    requires tweak != Owned(buffer) && tweak != Owned(keypair)
    modifies keypair, buffer, if into.Some? then {into.value.buffer} else {}
    ensures AllZero(buffer) && KeptBut(tweak, into)
    ensures var d, t := old(keypair[0]), old(ValueOf(tweak));
      if TweakedSecret(d, t).Some? then Delivered(r, [TweakedSecret(d, t).value], into) else Refused(r, into)
  {
    var scalar := Scalar32(tweak);
    if scalar.Raised? { return Raised(scalar.error); }
    var t := Load(scalar.value);
    var tweaked := KeypairTweakCall(keypair, t);
    if !tweaked { return Raised(ValueError); }
    buffer[0] := keypair[..][0];
    assert buffer[..] == [TweakedSecret(old(keypair[0]), t).value];
    r := Take(buffer, into);
  }

  /** `to_pubkey`: the even-y point of the x the octets name. */
  function ToPubkey(octets: PubkeyOctets, compressed: bool): Result<PubkeyOctets> {
    if octets.XOnly? then
      match Parse(Compressed(octets.x, false))
      case None => Raised(ValueError)
      case Some(p) => Ok(Serialize(p, compressed))
    else
      match Parse(octets)
      case None => Raised(ValueError)
      case Some(p) => Ok(Serialize(if Odd(p) then Neg(p) else p, compressed))
  }

  /** Lifting undoes dropping the y, and answers one key for the three serializations of either y. */
  lemma ToPubkeyIsTheEvenPoint(octets: PubkeyOctets, compressed: bool)
    ensures match ParseX(octets)
            case None => ToPubkey(octets, compressed) == Raised(ValueError)
            case Some(p) => ToPubkey(octets, compressed) == Ok(Serialize(p, compressed)) && !Odd(p) && p != 0
  {
    if octets.XOnly? {
      if LiftX(octets.x).Some? { LiftXExact(octets.x, LiftX(octets.x).value); }
    } else {
      ParsedIsPoint(octets);
      if Parse(octets).Some? { EvenPoint(Parse(octets).value); }
    }
  }

  /** What `pubkey_xonly_tweak_add` promises of the MuSig2 aggregate: tweaking the cache is the
      BIP341 tweak of the x it had, and the commitment check accepts it. */
  lemma MusigTweakIsTaproot(agg: Musig.KeyAgg, tweak: int)
    requires Musig.TweakInvariant(agg) && Fits(tweak)
    ensures match Musig.ApplyTweak(agg, true, tweak)
            case None => TweakAddX(XOnly(X(agg.q)), tweak) == Raised(ValueError)
            case Some(after) =>
              && TweakAddX(XOnly(X(agg.q)), tweak) == Ok((X(after.q), Odd(after.q)))
              && TweakAddCheck(X(after.q), if Odd(after.q) then 1 else 0, XOnly(X(agg.q)), tweak) == Ok(true)
  {
    LiftOfX(agg.q);
  }

  /** And its plain tweak is `pubkey_tweak_add` on the point. */
  lemma MusigPlainTweakIsTweakAdd(agg: Musig.KeyAgg, tweak: int, compressed: bool)
    requires Musig.TweakInvariant(agg) && Fits(tweak)
    ensures PubkeyTweakAdd(Serialize(agg.q, true), tweak, compressed)
            == match Musig.ApplyTweak(agg, false, tweak)
               case None => Raised(ValueError)
               case Some(after) => Ok(Serialize(after.q, compressed))
  {
    ParseSerialize(agg.q, true);
  }
}
