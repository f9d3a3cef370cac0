/** The objects of a MuSig2 session: the cache tweaked in place, the session, the secret nonce. */
module MusigObjects {
  import opened Results
  import opened Group
  import opened Musig
  import opened Memory
  import Keys
  import Bip340
  import SecretNonceThreads

  // ------------------------------------------------------------ parsing a list of contributions

  /** A public nonce, 66 octets: two compressed points.  An aggregate nonce may hold infinities. */
  datatype NonceOctets = NonceOctets(first: Keys.PubkeyOctets, second: Keys.PubkeyOctets)

  function ParseHalf(octets: Keys.PubkeyOctets, aggregate: bool): Option<Point> {
    if octets.Compressed? then Keys.Parse(octets)
    else if octets.Zeros? && aggregate then Some(0) else None
  }

  function ParseNonce(octets: NonceOctets, aggregate: bool): Option<Nonce> {
    match (ParseHalf(octets.first, aggregate), ParseHalf(octets.second, aggregate))
    case (Some(r1), Some(r2)) => Some(Nonce(r1, r2))
    case _ => None
  }

  function SerializeHalf(point: Point): Keys.PubkeyOctets {
    if point == 0 then Keys.Zeros else Keys.Serialize(point, true)
  }

  function SerializeNonce(nonce: Nonce): NonceOctets {
    NonceOctets(SerializeHalf(nonce.r1), SerializeHalf(nonce.r2))
  }

  /** What one party aggregates, every other party reads back, infinities included; a public nonce
      reads back exactly when neither half is infinity. */
  lemma NonceRoundTrip(nonce: Nonce)
    ensures ParseNonce(SerializeNonce(nonce), true) == Some(nonce)
    ensures ParseNonce(SerializeNonce(nonce), false) == Some(nonce) <==> nonce.r1 != 0 && nonce.r2 != 0
  {
    if nonce.r1 != 0 { Keys.ParseSerialize(nonce.r1, true); }
    if nonce.r2 != 0 { Keys.ParseSerialize(nonce.r2, true); }
  }

  /** And nothing else reads as a nonce: what does is what is written for it, so each half is 33 octets
      of a point, or the zeros of an aggregate. */
  lemma ParsedNonceIsWritten(octets: NonceOctets, aggregate: bool)
    ensures var r := ParseNonce(octets, aggregate);
            r.Some? ==> SerializeNonce(r.value) == octets && (!aggregate ==> r.value.r1 != 0 && r.value.r2 != 0)
  {
    Keys.ParsedIsPoint(octets.first);
    Keys.ParsedIsPoint(octets.second);
  }

  /** The per-contribution loops: every element parsed, or the first one that does not parse. */
  ghost predicate ParsedOrFirstRefused<S(!new), T(!new)>(inputs: seq<S>, parse: S -> Option<T>,
                                                         r: Result<seq<T>>) {
    match r
    case Ok(values) => |values| == |inputs| && forall i :: 0 <= i < |inputs| ==> parse(inputs[i]) == Some(values[i])
    case Raised(error) =>
      error.ValueErrorAt? && error.index < |inputs| && parse(inputs[error.index]).None?
      && forall i :: 0 <= i < error.index ==> parse(inputs[i]).Some?
  }

  method ParseEach<S(!new), T(!new)>(inputs: seq<S>, parse: S -> Option<T>) returns (r: Result<seq<T>>)
    ensures ParsedOrFirstRefused(inputs, parse, r)
  {
    var values: seq<T> := [];
    for i := 0 to |inputs|
      invariant |values| == i && forall j :: 0 <= j < i ==> parse(inputs[j]) == Some(values[j])
    {
      match parse(inputs[i])
      case None => return Raised(ValueErrorAt(i));
      case Some(value) => values := values + [value];
    }
    return Ok(values);
  }

  /** `nonce_agg`. */
  method NonceAgg(pubnonces: seq<NonceOctets>) returns (r: Result<NonceOctets>, ghost nonces: Result<seq<Nonce>>)
    ensures pubnonces == [] ==> r == Raised(ValueError)
    ensures pubnonces != [] ==>
      && ParsedOrFirstRefused(pubnonces, o => ParseNonce(o, false), nonces)
      && r == match nonces case Raised(e) => Raised(e) case Ok(ns) => Ok(SerializeNonce(NonceSum(ns)))
  {
    nonces := Raised(ValueError);
    if pubnonces == [] { return Raised(ValueError), nonces; }
    var parsed := ParseEach(pubnonces, o => ParseNonce(o, false));
    nonces := parsed;
    match parsed
    case Raised(e) => r := Raised(e);
    case Ok(ns) => r := Ok(SerializeNonce(NonceSum(ns)));
  }

  // ------------------------------------------------------------ the key aggregation cache

  class KeyAggCache {
    var agg: KeyAgg
    const aggPubkey: int

    ghost predicate Valid()
      reads this
    {
      && TweakInvariant(agg)
      && KeyAggregate(agg.keys).Some? && aggPubkey == X(KeyAggregate(agg.keys).value.q)
    }

    constructor (start: KeyAgg)
      requires KeyAggregate(start.keys) == Some(start)
      ensures Valid() && agg == start
    {
      agg := start;
      aggPubkey := X(start.q);
    }

    /** `KeyAggCache.__init__`. */
    static method Create(pubkeys: seq<Keys.PubkeyOctets>)
      returns (r: Result<KeyAggCache>, ghost keys: Result<seq<Point>>)
      ensures pubkeys == [] ==> r == Raised(ValueError)
      ensures pubkeys != [] ==>
        && ParsedOrFirstRefused(pubkeys, Keys.Parse, keys)
        && (keys.Raised? ==> r == Raised(keys.error))
        && (keys.Ok? && KeyAggregate(keys.value).None? ==> r == Raised(RuntimeError))
        && (keys.Ok? && KeyAggregate(keys.value).Some? ==>
              r.Ok? && fresh(r.value) && r.value.Valid() && r.value.agg == KeyAggregate(keys.value).value)
    {
      keys := Raised(ValueError);
      if pubkeys == [] { return Raised(ValueError), keys; }
      var parsed := ParseEach(pubkeys, Keys.Parse);
      keys := parsed;
      if parsed.Raised? { return Raised(parsed.error), keys; }
      var start := KeyAggregate(parsed.value);
      if start.None? { return Raised(RuntimeError), keys; }
      var cache := new KeyAggCache(start.value);
      r := Ok(cache);
    }

    method PubkeyGet(compressed: bool) returns (r: Keys.PubkeyOctets)
      requires Valid()
      ensures Keys.Parse(r) == Some(agg.q) && r.Compressed? == compressed
    {
      Keys.ParseSerialize(agg.q, compressed);
      r := Keys.Serialize(agg.q, compressed);
    }

    /** `_tweak_add`, of both kinds: the cache moves only where the tweak is accepted. */
    method TweakAdd(xonly: bool, tweak: int, compressed: bool) returns (r: Result<Keys.PubkeyOctets>)
      requires Valid()
      modifies this
      ensures Valid()
      ensures agg == if Fits(tweak) then ApplyTweak(old(agg), xonly, tweak).GetOr(old(agg)) else old(agg)
      ensures r == if Fits(tweak) && ApplyTweak(old(agg), xonly, tweak).Some?
                   then Ok(Keys.Serialize(agg.q, compressed)) else Raised(ValueError)
    {
      if !Fits(tweak) { return Raised(ValueError); }
      TweakKeepsInvariant(agg, xonly, tweak);
      var after := ApplyTweak(agg, xonly, tweak);
      if after.None? { return Raised(ValueError); }
      agg := after.value;
      return Ok(Keys.Serialize(agg.q, compressed));
    }
  }

  /** Sorted first, the same signers reach one aggregate in whatever order their keys arrived, and so
      one cache after the same tweaks. */
  lemma SortedSignersAggregateAlike(r: seq<Keys.Pointer>, t: seq<Keys.Pointer>, memory: nat -> Point,
                                    tweaks: seq<Tweak>)
    requires Keys.SortedBy(Keys.Addresses(r), memory) && Keys.SortedBy(Keys.Addresses(t), memory)
    requires multiset(Keys.Points(Keys.Addresses(r), memory)) == multiset(Keys.Points(Keys.Addresses(t), memory))
    requires forall p :: p in r ==> memory(p.address) != 0
    ensures var a, b := KeyAggregate(Keys.Points(Keys.Addresses(r), memory)),
                        KeyAggregate(Keys.Points(Keys.Addresses(t), memory));
            a == b && (a.Some? ==> AfterTweaks(a.value, tweaks) == AfterTweaks(b.value, tweaks))
  {
    Keys.SortingForgetsTheOrder(r, t, memory);
  }

  // ------------------------------------------------------------ the session

  class Session {
    const values: SessionValues

    constructor (values: SessionValues)
      ensures this.values == values
    {
      this.values := values;
    }

    /** `Session.__init__`: the message, the aggregate nonce and the cache as it stands are fixed. */
    static method Create(aggnonce: NonceOctets, msg: Octets, cache: KeyAggCache) returns (r: Result<Session>)
      ensures r.Ok? <==> ParseNonce(aggnonce, true).Some? && |msg| == 32
      ensures r.Raised? ==> r.error == ValueError
      ensures r.Ok? ==> fresh(r.value) && r.value.values == Process(ParseNonce(aggnonce, true).value, msg, cache.agg)
      ensures r.Ok? ==>
        && var nonce := ParseNonce(aggnonce, true).value;
        && var b := H.binding(nonce.r1, nonce.r2, X(cache.agg.q), msg);
        && var sum := Add(nonce.r1, Mul(b, nonce.r2));
        && var point := if sum == 0 then 1 else sum;
        && var e := H.challenge(X(point), X(cache.agg.q), msg);
        r.value.values
        == SessionValues(X(point), Odd(point), b, e, Mul(e, Sgn(Odd(cache.agg.q), cache.agg.tacc)))
    {
      var parsed := ParseNonce(aggnonce, true);
      if parsed.None? || |msg| != 32 { return Raised(ValueError); }
      var session := new Session(Process(parsed.value, msg, cache.agg));
      return Ok(session);
    }

    method PartialSigVerify(sig: int, pubnonce: NonceOctets, pubkey: Keys.PubkeyOctets, cache: KeyAggCache)
      returns (r: Result<bool>)
      ensures r.Ok? <==> 0 <= sig < C.n && ParseNonce(pubnonce, false).Some? && Keys.Parse(pubkey).Some?
      ensures r.Raised? ==> r.error == ValueError
      ensures r.Ok? ==> (r.value <==> PartialVerify(sig, ParseNonce(pubnonce, false).value,
                                                    Keys.Parse(pubkey).value, cache.agg, values))
    {
      var nonce, key := ParseNonce(pubnonce, false), Keys.Parse(pubkey);
      if !(0 <= sig < C.n) || nonce.None? || key.None? { return Raised(ValueError); }
      return Ok(PartialVerify(sig, nonce.value, key.value, cache.agg, values));
    }

    method PartialSigAggregate(sigs: seq<int>)
      returns (r: Result<Bip340.Signature>, ghost scalars: Result<seq<Scalar>>)
      ensures sigs == [] ==> r == Raised(ValueError)
      ensures sigs != [] ==>
        && ParsedOrFirstRefused(sigs, ParseScalar, scalars)
        && r == match scalars case Raised(e) => Raised(e) case Ok(ss) => Ok(PartialSigAgg(values, ss))
    {
      scalars := Raised(ValueError);
      if sigs == [] { return Raised(ValueError), scalars; }
      var parsed := ParseEach(sigs, ParseScalar);
      scalars := parsed;
      match parsed
      case Raised(e) => r := Raised(e);
      case Ok(ss) => r := Ok(PartialSigAgg(values, ss));
    }
  }

  function ParseScalar(s: int): Option<Scalar> {
    if 0 <= s < C.n then Some(s) else None
  }

  // ------------------------------------------------------------ the secret nonce

  /** The C signing call: it loads the secnonce and overwrites it before any other check. */
  method PartialSignCall(secnonce: array<int>, keypair: array<int>, agg: KeyAgg, session: SessionValues)
    returns (signed: bool, s: Scalar)
    requires secnonce.Length == 3 && keypair.Length == 2 && secnonce != keypair
    requires (forall i :: 0 <= i < 3 ==> 0 < secnonce[i] < C.n) && 0 < keypair[0] < C.n
    modifies secnonce
    ensures AllZero(secnonce)
    ensures signed <==> old(keypair[1]) == old(secnonce[2])
    ensures signed ==> s == PartialSign(old(secnonce[0]), old(secnonce[1]), old(keypair[0]), agg, session)
  {
    var k1, k2, key := secnonce[0], secnonce[1], secnonce[2];
    Wipe(secnonce);
    if keypair[1] != key { return false, 0; }
    return true, PartialSign(k1, k2, keypair[0], agg, session);
  }

  class SecretNonce {
    var secnonce: array?<int>   // k1, k2 and the key they are for, or null once taken
    const nonce: Nonce
    const pubkey: Point

    ghost predicate Valid()
      reads this, secnonce
    {
      secnonce != null ==>
        && secnonce.Length == 3 && secnonce[..] == [nonce.r1, nonce.r2, pubkey]
        && nonce.r1 != 0 && nonce.r2 != 0 && pubkey != 0
    }

    constructor (secnonce: array<int>, nonce: Nonce, pubkey: Point)
      requires secnonce[..] == [nonce.r1, nonce.r2, pubkey] && nonce.r1 != 0 && nonce.r2 != 0 && pubkey != 0
      ensures Valid() && this.secnonce == secnonce && this.nonce == nonce && this.pubkey == pubkey
    {
      this.secnonce := secnonce;
      this.nonce := nonce;
      this.pubkey := pubkey;
    }

    /** Whatever the outcome the secret nonce is gone from the field and from memory, the keypair with
        it, and the caller's private key is as it was; the check the signature must pass before it is
        answered cannot fail. */
    method Sign(arena: Arena, prvkey: ScalarArg, cache: KeyAggCache, session: Session, verify: bool)
      returns (r: Result<Scalar>)
      requires Valid()
      modifies this, secnonce, arena
      ensures secnonce == null && (old(secnonce) != null ==> AllZero(old(secnonce)))
      ensures LeavesOnlyZeros(arena) && (old(secnonce) == null || prvkey != Owned(old(secnonce)) ==> Kept(prvkey))
      ensures r == if old(secnonce) == null || old(ValueOf(prvkey)) != pubkey then Raised(ValueError)
                   else Ok(PartialSign(nonce.r1, nonce.r2, pubkey, cache.agg, session.values))
      ensures r.Ok? ==> PartialVerify(r.value, nonce, pubkey, cache.agg, session.values)
      ensures IsAnswerTo(SecretNonceThreads.Alone(SigningCall(old(ValueOf(prvkey))), old(secnonce) != null), r)
    {
      hide PartialSign, PartialVerify, IsAnswerTo, SigningCall;
      Outcomes(old(ValueOf(prvkey)));
      var taken := secnonce;
      secnonce := null;
      if taken == null { return Raised(ValueError); }
      var keypair := Keypair(arena, prvkey);
      var signed, s := false, 0;
      if keypair.Ok? {
        ghost var d := old(ValueOf(prvkey));
        assert keypair.value[..] == [d, d];
        signed, s := PartialSignCall(taken, keypair.value, cache.agg, session.values);
        OnlyTheHonestPartialPasses(nonce.r1, nonce.r2, d, s, cache.agg, session.values);
        Wipe(keypair.value);
      }
      Wipe(taken);
      if keypair.Raised? { return Raised(keypair.error); }
      if !signed { return Raised(ValueError); }
      if verify && !PartialVerify(s, nonce, pubkey, cache.agg, session.values) { return Raised(RuntimeError); }
      return Ok(s);
    }

    /** The outcomes of the machine, as this method answers them. */
    lemma Outcomes(d: int)
      ensures IsAnswerTo(SecretNonceThreads.Alone(SigningCall(d), false), Raised(ValueError))
      ensures forall r: Result<Scalar> ::
        (d != pubkey ==> r == Raised(ValueError)) && (d == pubkey ==> r.Ok? && IsSecretKey(d)) ==>
          IsAnswerTo(SecretNonceThreads.Alone(SigningCall(d), true), r)
    {}

    /** This call, as the threads that race for the nonce make it. */
    function SigningCall(d: int): SecretNonceThreads.Call {
      SecretNonceThreads.PartialSign(IsSecretKey(d), d == pubkey)
    }

    /** `wipe`, and the way out of a `with` block. */
    method Abandon()
      requires Valid()
      modifies this, secnonce
      ensures secnonce == null && (old(secnonce) != null ==> AllZero(old(secnonce)))
    {
      var taken := secnonce;
      secnonce := null;
      if taken != null { Wipe(taken); }
    }
  }

  /** What each outcome of the step machine is to the caller of `partial_sign`. */
  predicate IsAnswerTo(outcome: SecretNonceThreads.Outcome, r: Result<Scalar>) {
    match outcome
    case Signed => r.Ok?
    case Spent => r == Raised(ValueError)
    case KeyRefused => r == Raised(ValueError)
    case Mismatch => r == Raised(ValueError)
    case _ => false
  }

  datatype Use = Signing(prvkey: ScalarArg, cache: KeyAggCache, session: Session) | Abandoning

  function CallOf(use: Use, secret: SecretNonce): SecretNonceThreads.Call
    reads if use.Signing? then Cells(use.prvkey) else {}
  {
    match use
    case Signing(prvkey, _, _) => secret.SigningCall(ValueOf(prvkey))
    case Abandoning => SecretNonceThreads.Wipe
  }

  /** One call on the object is the one call of the step machine that runs alone. */
  method UseOnce(arena: Arena, secret: SecretNonce, use: Use, ghost present: bool) returns (r: Option<Result<Scalar>>)
    requires secret.Valid() && (present <==> secret.secnonce != null)
    requires use.Signing? && secret.secnonce != null ==> use.prvkey != Owned(secret.secnonce)
    modifies arena, secret, secret.secnonce
    ensures secret.secnonce == null && LeavesOnlyZeros(arena)
    ensures old(secret.secnonce) != null ==> AllZero(old(secret.secnonce))
    ensures use.Signing? ==> Kept(use.prvkey)
    ensures (secret.secnonce != null) == SecretNonceThreads.Leaves(old(CallOf(use, secret)), present)
    ensures Matches(SecretNonceThreads.Alone(old(CallOf(use, secret)), present), r)
  {
    match use
    case Signing(prvkey, cache, session) =>
      var answer := secret.Sign(arena, prvkey, cache, session, true);
      r := Some(answer);
    case Abandoning =>
      secret.Abandon();
      r := None;
  }

  predicate Matches(outcome: SecretNonceThreads.Outcome, r: Option<Result<Scalar>>) {
    match r
    case None => outcome.Wiped? || outcome.NothingToWipe?
    case Some(answer) => IsAnswerTo(outcome, answer)
  }

  function CallsOf(uses: seq<Use>, secret: SecretNonce): seq<SecretNonceThreads.Call>
    reads set use, o | use in uses && use.Signing? && o in Cells(use.prvkey) :: o
  {
    seq(|uses|, i requires 0 <= i < |uses|
                  reads set use, o | use in uses && use.Signing? && o in Cells(use.prvkey) :: o
                => CallOf(uses[i], secret))
  }

  /** Calls made one after the other on one object are answered as the sequential history of the step
      machine says; with `HistoryIsSequential`, so is every interleaving of them. */
  method UseInTurn(arena: Arena, secret: SecretNonce, uses: seq<Use>) returns (answers: seq<Option<Result<Scalar>>>)
    requires secret.Valid() && secret.secnonce != null
    requires forall i :: 0 <= i < |uses| && uses[i].Signing? ==> uses[i].prvkey != Owned(secret.secnonce)
    modifies arena, secret, secret.secnonce
    ensures LeavesOnlyZeros(arena) && |answers| == |uses|
    ensures uses != [] ==> secret.secnonce == null && AllZero(old(secret.secnonce))
    ensures var outcomes := SecretNonceThreads.OneByOne(old(CallsOf(uses, secret)));
      |outcomes| == |uses| && forall i :: 0 <= i < |uses| ==> Matches(outcomes[i], answers[i])
  {
    ghost var calls := CallsOf(uses, secret);
    ghost var memory := secret.secnonce;
    answers := [];
    for i := 0 to |uses|
      invariant |answers| == i && LeavesOnlyZeros(arena)
      invariant secret.Valid() && secret.secnonce == (if i == 0 then memory else null)
      invariant i > 0 ==> AllZero(memory)
      invariant forall j :: 0 <= j < |uses| ==> CallOf(uses[j], secret) == calls[j]
      invariant forall j :: 0 <= j < i ==> Matches(SecretNonceThreads.Alone(calls[j], j == 0), answers[j])
    {
      var answer := UseOnce(arena, secret, uses[i], i == 0);
      answers := answers + [answer];
    }
    forall i | 0 <= i < |uses|
      ensures |SecretNonceThreads.OneByOne(calls)| == |uses|
      ensures SecretNonceThreads.OneByOne(calls)[i] == SecretNonceThreads.Alone(calls[i], i == 0)
    {
      SecretNonceThreads.OneByOneAt(calls, i);
    }
  }

  /** An optional argument as the derivation hashes it: absent, or its length and itself. */
  function Field(arg: Option<Octets>): Octets {
    match arg
    case None => [0]
    case Some(octets) => [|octets| + 1] + octets
  }

  /** What the derivation reads beside its secret: the key, the private key, the x of the aggregate, the
      message, the extra input, each but the first optional. */
  function NonceInputs(pubkey: Point, prvkey: Option<int>, aggregate: Option<int>, msg: Option<Octets>,
                       extra: Option<Octets>): Octets {
    [pubkey] + (Field(Number(prvkey)) + (Field(Number(aggregate)) + (Field(msg) + Field(extra))))
  }

  function Number(arg: Option<int>): Option<Octets> {
    if arg.None? then None else Some([arg.value])
  }

  lemma FieldsApart(a: Option<Octets>, b: Option<Octets>, x: Octets, y: Octets)
    requires Field(a) + x == Field(b) + y
    ensures a == b && x == y
  {
    var s, t := Field(a) + x, Field(b) + y;
    assert s[0] == Field(a)[0] && t[0] == Field(b)[0];
    assert s[|Field(a)|..] == x && t[|Field(b)|..] == y;
    if a.Some? {
      assert s[1..1 + |a.value|] == a.value && t[1..1 + |b.value|] == b.value;
    }
  }

  /** Every argument reaches the hash: different arguments are different inputs. */
  lemma NonceInputsApart(pubkey: Point, prvkey: Option<int>, aggregate: Option<int>, msg: Option<Octets>,
                         extra: Option<Octets>, pubkey': Point, prvkey': Option<int>, aggregate': Option<int>,
                         msg': Option<Octets>, extra': Option<Octets>)
    requires NonceInputs(pubkey, prvkey, aggregate, msg, extra)
             == NonceInputs(pubkey', prvkey', aggregate', msg', extra')
    ensures pubkey == pubkey' && prvkey == prvkey' && aggregate == aggregate' && msg == msg' && extra == extra'
  {
    hide Field;
    var a, b := Field(msg) + Field(extra), Field(msg') + Field(extra');
    var c, d := Field(Number(aggregate)) + a, Field(Number(aggregate')) + b;
    var s := NonceInputs(pubkey, prvkey, aggregate, msg, extra);
    var t := NonceInputs(pubkey', prvkey', aggregate', msg', extra');
    assert s[0] == pubkey && t[0] == pubkey';
    assert s[1..] == Field(Number(prvkey)) + c && t[1..] == Field(Number(prvkey')) + d;
    FieldsApart(Number(prvkey), Number(prvkey'), c, d);
    FieldsApart(Number(aggregate), Number(aggregate'), a, b);
    assert Field(extra) + [] == Field(extra) && Field(extra') + [] == Field(extra');
    FieldsApart(msg, msg', Field(extra), Field(extra'));
    FieldsApart(extra, extra', [], []);
    assert Number(prvkey) == Number(prvkey') && Number(aggregate) == Number(aggregate');
    assert prvkey.Some? ==> Number(prvkey).value[0] == Number(prvkey').value[0];
    assert aggregate.Some? ==> Number(aggregate).value[0] == Number(aggregate').value[0];
  }

  /** What the derivation reads of the cache it is given: the x of its current aggregate. */
  function CacheX(cache: KeyAggCache?): Option<int>
    reads cache
  {
    if cache == null then None else Some(X(cache.agg.q))
  }

  function DerivedNonce(secret: Octets, inputs: Octets): (nonce: Nonce)
    ensures nonce.r1 != 0 && nonce.r2 != 0
  {
    Nonce(H.secretNonce(secret, inputs, 1), H.secretNonce(secret, inputs, 2))
  }

  /** `octets` of an argument that may be None and otherwise is 32 of them. */
  predicate Is32(octets: Option<Octets>) {
    octets.Some? ==> |octets.value| == 32
  }

  /** The secret nonce just made is the one new buffer that holds anything. */
  twostate predicate MadeNonce(arena: Arena, new secret: SecretNonce, new pubkey: Point, new nonce: Nonce)
    reads arena, arena.owned, secret, secret.secnonce
  {
    && fresh(secret) && secret.Valid() && secret.pubkey == pubkey && secret.nonce == nonce
    && secret.secnonce != null && fresh(secret.secnonce) && LeavesOnly(arena, {secret.secnonce})
  }

  method OptionalKey(prvkey: Option<ScalarArg>) returns (r: Result<Option<int>>)
    ensures prvkey.None? ==> r == Ok(None)
    ensures prvkey.Some? ==>
      r == if Fits(ValueOf(prvkey.value)) then Ok(Some(ValueOf(prvkey.value))) else Raised(ValueError)
  {
    if prvkey.None? { return Ok(None); }
    var scalar := Scalar32(prvkey.value);
    if scalar.Raised? { return Raised(scalar.error); }
    var value := Load(scalar.value);
    return Ok(Some(value));
  }

  /** `nonce_gen`, with its 32 fresh random octets as an argument. */
  method NonceGen(arena: Arena, random: Octets, pubkey: Keys.PubkeyOctets, prvkey: Option<ScalarArg>,
                  msg: Option<Octets>, cache: KeyAggCache?, extra: Option<Octets>) returns (r: Result<SecretNonce>)
    modifies arena
    ensures prvkey.Some? ==> Kept(prvkey.value)
    ensures r.Ok? <==> Keys.Parse(pubkey).Some? && (prvkey.Some? ==> IsSecretKey(ValueOf(prvkey.value)))
                       && Is32(msg) && Is32(extra)
    ensures r.Raised? ==> r.error == ValueError && LeavesOnlyZeros(arena)
    ensures r.Ok? ==>
      var point := Keys.Parse(pubkey).value;
      var d := if prvkey.Some? then Some(ValueOf(prvkey.value)) else None;
      var inputs := NonceInputs(point, d, CacheX(cache), msg, extra);
      MadeNonce(arena, r.value, point, Nonce(H.secretNonce(random, inputs, 1), H.secretNonce(random, inputs, 2)))
  {
    hide Keys.Parse, Keys.Serialize, NonceInputs, Is32;
    var point := Keys.Parse(pubkey);
    if point.None? { return Raised(ValueError); }
    Keys.ParsedIsPoint(pubkey);
    var given := OptionalKey(prvkey);
    if given.Raised? { return Raised(given.error); }
    var d := given.value;
    if !Is32(msg) || !Is32(extra) { return Raised(ValueError); }
    var scratch := arena.New(random);
    var nonce := DerivedNonce(scratch[..], NonceInputs(point.value, d, CacheX(cache), msg, extra));
    var generated := prvkey.None? || IsSecretKey(d.value);
    Wipe(scratch);
    if !generated { return Raised(ValueError); }
    var secnonce := arena.New([nonce.r1, nonce.r2, point.value]);
    var secret := new SecretNonce(secnonce, nonce, point.value);
    assert arena.owned == old(arena.owned) + [scratch, secnonce];
    return Ok(secret);
  }

  /** `nonce_gen_counter`: the counter in place of the randomness, the key mandatory. */
  method NonceGenCounter(arena: Arena, prvkey: ScalarArg, counter: int, msg: Option<Octets>, cache: KeyAggCache?,
                         extra: Option<Octets>) returns (r: Result<SecretNonce>)
    modifies arena
    ensures Kept(prvkey)
    ensures r.Ok? <==> 0 <= counter < 0x1_0000_0000_0000_0000 && IsSecretKey(ValueOf(prvkey))
                       && Is32(msg) && Is32(extra)
    ensures r.Raised? ==> r.error == ValueError && LeavesOnlyZeros(arena)
    ensures r.Ok? ==>
      var d := ValueOf(prvkey);
      var inputs := NonceInputs(d, Some(d), CacheX(cache), msg, extra);
      MadeNonce(arena, r.value, d, Nonce(H.secretNonce([counter], inputs, 1), H.secretNonce([counter], inputs, 2)))
  {
    hide NonceInputs, Is32;
    if !(0 <= counter < 0x1_0000_0000_0000_0000) || !Is32(msg) || !Is32(extra) { return Raised(ValueError); }
    var keypair := Keypair(arena, prvkey);
    if keypair.Raised? { return Raised(keypair.error); }
    assert keypair.value[..] == [ValueOf(prvkey), ValueOf(prvkey)];
    var sk, pubkey := keypair.value[..][0], keypair.value[..][1];
    var nonce := DerivedNonce([counter], NonceInputs(pubkey, Some(sk), CacheX(cache), msg, extra));
    Wipe(keypair.value);
    var secnonce := arena.New([nonce.r1, nonce.r2, pubkey]);
    var secret := new SecretNonce(secnonce, nonce, pubkey);
    assert arena.owned == old(arena.owned) + [keypair.value, secnonce];
    return Ok(secret);
  }
}
