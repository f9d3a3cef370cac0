/** A whole signing round through the objects: aggregate, tweak, generate, exchange, sign, aggregate. */
module MusigRound {
  import opened Results
  import opened Group
  import opened Musig
  import opened Memory
  import opened MusigObjects
  import Keys
  import Bip340

  method AllTweaks(cache: KeyAggCache, tweaks: seq<Tweak>)
    requires cache.Valid()
    modifies cache
    ensures cache.Valid() && cache.agg == AfterTweaks(old(cache.agg), tweaks)
  {
    ghost var start := cache.agg;
    assert tweaks[..0] == [];
    for i := 0 to |tweaks|
      invariant cache.Valid() && cache.agg == AfterTweaks(start, tweaks[..i])
    {
      ghost var before := cache.agg;
      assert tweaks[..i + 1][..i] == tweaks[..i];
      assert !Fits(tweaks[i].value) ==> ApplyTweak(before, tweaks[i].xonly, tweaks[i].value).None?;
      var _ := cache.TweakAdd(tweaks[i].xonly, tweaks[i].value, true);
    }
    assert tweaks[..|tweaks|] == tweaks;
  }

  /** The secret nonces of a round: one a signer, none sharing memory with another. */
  ghost predicate Ready(secrets: seq<SecretNonce>, prvkeys: seq<Nonzero>)
    reads set s | s in secrets, set s | s in secrets && s.secnonce != null :: s.secnonce
  {
    && |secrets| <= |prvkeys|
    && (forall i :: 0 <= i < |secrets| ==>
          secrets[i].Valid() && secrets[i].secnonce != null && secrets[i].pubkey == prvkeys[i])
    && (forall i, j :: 0 <= i < j < |secrets| ==>
          secrets[i] != secrets[j] && secrets[i].secnonce != secrets[j].secnonce)
  }

  ghost predicate HeldBy(held: set<object>, secrets: seq<SecretNonce>)
    reads secrets
  {
    forall o :: o in held ==> exists i :: 0 <= i < |secrets| && o == secrets[i].secnonce
  }

  /** The nonces the signers derive, each from its own randomness. */
  function RoundNonces(prvkeys: seq<Nonzero>, randoms: seq<Octets>, msg: Octets, aggPubkey: int): seq<Nonce>
    requires |randoms| == |prvkeys|
  {
    seq(|prvkeys|, i requires 0 <= i < |prvkeys| => SignerNonce(prvkeys[i], randoms[i], msg, aggPubkey))
  }

  function SignerNonce(prvkey: Nonzero, random: Octets, msg: Octets, aggPubkey: int): Nonce {
    DerivedNonce(random, NonceInputs(prvkey, Some(prvkey), Some(aggPubkey), Some(msg), None))
  }

  method OneNonce(arena: Arena, prvkey: Nonzero, random: Octets, msg: Octets, cache: KeyAggCache)
    returns (s: SecretNonce)
    requires |msg| == 32
    modifies arena
    ensures MadeNonce(arena, s, prvkey, SignerNonce(prvkey, random, msg, X(cache.agg.q)))
  {
    Keys.ParseSerialize(prvkey, true);
    var made := NonceGen(arena, random, Keys.Serialize(prvkey, true), Some(Value(prvkey)), Some(msg), cache, None);
    s := made.value;
  }

  lemma AreRoundNonces(secrets: seq<SecretNonce>, prvkeys: seq<Nonzero>, randoms: seq<Octets>, msg: Octets,
                       aggPubkey: int)
    requires |secrets| == |prvkeys| == |randoms|
    requires forall j :: 0 <= j < |secrets| ==>
      secrets[j].nonce == SignerNonce(prvkeys[j], randoms[j], msg, aggPubkey)
    ensures NoncesOf(secrets) == RoundNonces(prvkeys, randoms, msg, aggPubkey)
  {}

  lemma NoneHeld()
    ensures HeldBy({}, [])
  {}

  lemma OneMore(secrets: seq<SecretNonce>, held: set<object>, prvkeys: seq<Nonzero>, secret: SecretNonce)
    requires Ready(secrets, prvkeys) && HeldBy(held, secrets) && |secrets| < |prvkeys|
    requires secret.Valid() && secret.secnonce != null && secret.pubkey == prvkeys[|secrets|]
    requires forall i :: 0 <= i < |secrets| ==> secrets[i] != secret && secrets[i].secnonce != secret.secnonce
    ensures Ready(secrets + [secret], prvkeys) && HeldBy(held + {secret.secnonce}, secrets + [secret])
  {
    assert (secrets + [secret])[|secrets|] == secret;
  }

  /** One nonce beside those there are. */
  method AddNonce(arena: Arena, secrets: seq<SecretNonce>, ghost held: set<object>, prvkeys: seq<Nonzero>,
                  random: Octets, msg: Octets, cache: KeyAggCache) returns (s: SecretNonce)
    requires Ready(secrets, prvkeys) && HeldBy(held, secrets) && |secrets| < |prvkeys| && |msg| == 32
    modifies arena
    ensures MadeNonce(arena, s, prvkeys[|secrets|], SignerNonce(prvkeys[|secrets|], random, msg, X(cache.agg.q)))
    ensures Ready(secrets + [s], prvkeys) && HeldBy(held + {s.secnonce}, secrets + [s])
  {
    hide HeldBy, SignerNonce;
    s := OneNonce(arena, prvkeys[|secrets|], random, msg, cache);
    OneMore(secrets, held, prvkeys, s);
  }

  /** What the nonces hold is all that the arena gains. */
  method AllNonces(arena: Arena, prvkeys: seq<Nonzero>, randoms: seq<Octets>, msg: Octets, cache: KeyAggCache)
    returns (secrets: seq<SecretNonce>, ghost held: set<object>)
    requires |randoms| == |prvkeys| && |msg| == 32
    modifies arena
    ensures |secrets| == |prvkeys| && Ready(secrets, prvkeys)
    ensures NoncesOf(secrets) == RoundNonces(prvkeys, randoms, msg, X(cache.agg.q))
    ensures forall i :: 0 <= i < |secrets| ==> fresh(secrets[i]) && fresh(secrets[i].secnonce)
    ensures LeavesOnly(arena, held) && HeldBy(held, secrets)
  {
    hide HeldBy, SignerNonce, RoundNonces, NoncesOf;
    secrets, held := [], {};
    NoneHeld();
    for i := 0 to |prvkeys|
      invariant |secrets| == i && Ready(secrets, prvkeys)
      invariant forall j :: 0 <= j < i ==> secrets[j].nonce == SignerNonce(prvkeys[j], randoms[j], msg, X(cache.agg.q))
      invariant forall j :: 0 <= j < i ==> fresh(secrets[j]) && fresh(secrets[j].secnonce)
      invariant forall j :: 0 <= j < i ==> allocated(secrets[j]) && allocated(secrets[j].secnonce)
      invariant LeavesOnly(arena, held) && HeldBy(held, secrets)
    {
      var secret := AddNonce(arena, secrets, held, prvkeys, randoms[i], msg, cache);
      secrets, held := secrets + [secret], held + {secret.secnonce};
    }
    AreRoundNonces(secrets, prvkeys, randoms, msg, X(cache.agg.q));
  }

  function NoncesOf(secrets: seq<SecretNonce>): seq<Nonce> {
    seq(|secrets|, i requires 0 <= i < |secrets| => secrets[i].nonce)
  }

  /** Every signer signs; every secret nonce is gone, from its field and from memory. */
  method AllSignatures(arena: Arena, secrets: seq<SecretNonce>, prvkeys: seq<Nonzero>, cache: KeyAggCache,
                       session: Session) returns (sigs: seq<Scalar>)
    requires Ready(secrets, prvkeys) && |secrets| == |prvkeys|
    modifies arena, set s | s in secrets, set s | s in secrets && s.secnonce != null :: s.secnonce
    ensures |sigs| == |prvkeys| && cache.agg == old(cache.agg) && LeavesOnlyZeros(arena)
    ensures forall i :: 0 <= i < |secrets| ==> secrets[i].secnonce == null && AllZero(old(secrets[i].secnonce))
    ensures forall i :: 0 <= i < |sigs| ==>
      sigs[i] == PartialSign(secrets[i].nonce.r1, secrets[i].nonce.r2, prvkeys[i], cache.agg, session.values)
  {
    hide PartialSign, PartialVerify, IsAnswerTo;
    sigs := [];
    for i := 0 to |prvkeys|
      invariant |sigs| == i && LeavesOnlyZeros(arena)
      invariant forall j :: i <= j < |secrets| ==>
        secrets[j].Valid() && secrets[j].secnonce == old(secrets[j].secnonce)
      invariant forall j :: 0 <= j < i ==> secrets[j].secnonce == null && AllZero(old(secrets[j].secnonce))
      invariant forall j :: 0 <= j < i ==>
        sigs[j] == PartialSign(secrets[j].nonce.r1, secrets[j].nonce.r2, prvkeys[j], cache.agg, session.values)
    {
      var sig := secrets[i].Sign(arena, Value(prvkeys[i]), cache, session, true);
      sigs := sigs + [sig.value];
    }
  }

  /** Every signer's key serialized, parsed by the cache, and the tweaks run over it. */
  method SharedCache(prvkeys: seq<Nonzero>, tweaks: seq<Tweak>) returns (r: Result<KeyAggCache>)
    requires |prvkeys| > 0
    ensures r.Ok? <==> KeyAggregate(prvkeys).Some?
    ensures r.Ok? ==>
      && fresh(r.value) && r.value.Valid() && r.value.agg == AfterTweaks(KeyAggregate(prvkeys).value, tweaks)
  {
    var pubkeys := seq(|prvkeys|, i requires 0 <= i < |prvkeys| => Keys.Serialize(prvkeys[i], true));
    ghost var keys;
    r, keys := KeyAggCache.Create(pubkeys);
    SerializedKeysParse(prvkeys, pubkeys, keys);
    if r.Ok? { AllTweaks(r.value, tweaks); }
  }

  /** Every signer's public nonce serialized, and the two sums serialized in turn. */
  method SharedNonce(nonces: seq<Nonce>) returns (aggnonce: NonceOctets)
    requires |nonces| > 0 && forall i :: 0 <= i < |nonces| ==> nonces[i].r1 != 0 && nonces[i].r2 != 0
    ensures ParseNonce(aggnonce, true) == Some(NonceSum(nonces))
  {
    var pubnonces := seq(|nonces|, i requires 0 <= i < |nonces| => SerializeNonce(nonces[i]));
    var r, parsed := NonceAgg(pubnonces);
    SerializedNoncesParse(nonces, pubnonces, parsed);
    NonceRoundTrip(NonceSum(nonces));
    aggnonce := r.value;
  }

  method Combine(session: Session, sigs: seq<Scalar>) returns (signature: Bip340.Signature)
    requires |sigs| > 0
    ensures signature == PartialSigAgg(session.values, sigs)
  {
    var r, scalars := session.PartialSigAggregate(sigs);
    ScalarsParse(sigs, scalars);
    signature := r.value;
  }

  /** The public nonces exchanged, and the session they fix. */
  method Exchange(nonces: seq<Nonce>, msg: Octets, cache: KeyAggCache) returns (session: Session)
    requires |nonces| > 0 && |msg| == 32
    requires forall i :: 0 <= i < |nonces| ==> nonces[i].r1 != 0 && nonces[i].r2 != 0
    ensures session.values == Process(NonceSum(nonces), msg, cache.agg)
  {
    hide NonceSum, Process;
    var aggnonce := SharedNonce(nonces);
    var made := Session.Create(aggnonce, msg, cache);
    session := made.value;
  }

  /** Nonces exchanged, then signatures made. */
  method BothRounds(arena: Arena, prvkeys: seq<Nonzero>, randoms: seq<Octets>, msg: Octets, cache: KeyAggCache)
    returns (session: Session, sigs: seq<Scalar>)
    requires |randoms| == |prvkeys| > 0 && |msg| == 32
    modifies arena
    ensures LeavesOnlyZeros(arena) && |sigs| == |prvkeys|
    ensures var nonces := RoundNonces(prvkeys, randoms, msg, X(cache.agg.q));
      && session.values == Process(NonceSum(nonces), msg, cache.agg)
      && forall i :: 0 <= i < |sigs| ==>
           sigs[i] == PartialSign(nonces[i].r1, nonces[i].r2, prvkeys[i], cache.agg, session.values)
  {
    hide NonceSum, Process, PartialSign, SignerNonce, RoundNonces;
    var secrets, held := AllNonces(arena, prvkeys, randoms, msg, cache);
    ghost var middle := arena.owned;
    session := Exchange(NoncesOf(secrets), msg, cache);
    label exchanged:
    sigs := AllSignatures(arena, secrets, prvkeys, cache, session);
    forall m | |old(arena.owned)| <= m < |middle|
      ensures AllZero(middle[m])
    {
      assert old@exchanged(middle[m] !in held ==> AllZero(middle[m]));
    }
    assert middle <= arena.owned;
  }

  /** Whatever the keys and the run of tweaks, the signature the round ends with verifies under the
      key the cache answers, unless the nonces cancel; and of the nonces, the keypairs and the randomness
      nothing is left in memory. */
  method SigningRound(arena: Arena, prvkeys: seq<Nonzero>, tweaks: seq<Tweak>, randoms: seq<Octets>, msg: Octets)
    returns (r: Result<(Bip340.Signature, Keys.PubkeyOctets)>)
    requires |randoms| == |prvkeys| > 0 && |msg| == 32
    modifies arena
    ensures LeavesOnlyZeros(arena)
    ensures r.Ok? <==> KeyAggregate(prvkeys).Some?
    ensures r.Ok? ==>
      && var agg := AfterTweaks(KeyAggregate(prvkeys).value, tweaks);
      && var nonces := RoundNonces(prvkeys, randoms, msg, X(agg.q));
      && Keys.Parse(r.value.1) == Some(agg.q)
      && (Bip340.Verify(X(agg.q), msg, r.value.0)
          <==> Effective(Binding(agg, NonceSum(nonces), msg), NonceSum(nonces)) != 0)
  {
    hide Bip340.Verify, Effective, Binding, NonceSum, Process, PartialSign, PartialSigAgg, KeyAggregate, AfterTweaks,
      TweakInvariant, Keys.Parse;
    var shared := SharedCache(prvkeys, tweaks);
    if shared.Raised? { return Raised(shared.error); }
    var cache := shared.value;
    var session, sigs := BothRounds(arena, prvkeys, randoms, msg, cache);
    var pubkey := cache.PubkeyGet(true);
    var signature := Combine(session, sigs);
    HonestSessionVerifies(prvkeys, tweaks, RoundNonces(prvkeys, randoms, msg, X(cache.agg.q)), msg, sigs);
    return Ok((signature, pubkey));
  }

  lemma SerializedKeysParse(prvkeys: seq<Nonzero>, pubkeys: seq<Keys.PubkeyOctets>, keys: Result<seq<Point>>)
    requires |pubkeys| == |prvkeys| && ParsedOrFirstRefused(pubkeys, Keys.Parse, keys)
    requires forall i :: 0 <= i < |prvkeys| ==> pubkeys[i] == Keys.Serialize(prvkeys[i], true)
    ensures keys == Ok(prvkeys)
  {
    forall i | 0 <= i < |prvkeys|
      ensures Keys.Parse(pubkeys[i]) == Some(prvkeys[i])
    {
      Keys.ParseSerialize(prvkeys[i], true);
    }
    assert keys.Ok? && keys.value == prvkeys;
  }

  lemma SerializedNoncesParse(nonces: seq<Nonce>, pubnonces: seq<NonceOctets>, parsed: Result<seq<Nonce>>)
    requires |pubnonces| == |nonces| && ParsedOrFirstRefused(pubnonces, o => ParseNonce(o, false), parsed)
    requires forall i :: 0 <= i < |nonces| ==>
      nonces[i].r1 != 0 && nonces[i].r2 != 0 && pubnonces[i] == SerializeNonce(nonces[i])
    ensures parsed == Ok(nonces)
  {
    forall i | 0 <= i < |nonces|
      ensures ParseNonce(pubnonces[i], false) == Some(nonces[i])
    {
      NonceRoundTrip(nonces[i]);
    }
    assert parsed.Ok? && parsed.value == nonces;
  }

  lemma ScalarsParse(sigs: seq<int>, scalars: Result<seq<Scalar>>)
    requires ParsedOrFirstRefused(sigs, ParseScalar, scalars) && forall i :: 0 <= i < |sigs| ==> 0 <= sigs[i] < C.n
    ensures scalars == Ok(sigs)
  {
    assert forall i :: 0 <= i < |sigs| ==> ParseScalar(sigs[i]) == Some(sigs[i]);
    assert scalars.Ok?;
    assert scalars.value == sigs;
  }
}
