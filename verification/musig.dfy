/** MuSig2 as BIP327 defines it, over the exponent group: the equations the C calls answer, and
    what the Python composes of them. */
module Musig {
  import opened Results
  import opened Group
  import Bip340

  // ------------------------------------------------------------ key aggregation

  /** The first key that differs from keys[0], or 0 where there is none. */
  function SecondKey(keys: seq<Point>): Point {
    SecondFrom(keys, 1)
  }

  function SecondFrom(keys: seq<Point>, i: nat): Point
    decreases |keys| - i
  {
    if i >= |keys| then 0
    else if keys[i] != keys[0] then keys[i]
    else SecondFrom(keys, i + 1)
  }

  function Coefficient(keys: seq<Point>, key: Point): Scalar {
    if key == SecondKey(keys) then 1 else H.coefficient(keys, key)
  }

  predicate IsFirstOther(keys: seq<Point>, second: int) {
    0 <= second < |keys| && keys[second] != keys[0] && forall j :: 0 <= j < second ==> keys[j] == keys[0]
  }

  /** Which keys count how often, whatever the list: a key equal to the first one that differs from
      keys[0] once, every other key its hash with the list; and where all keys are equal, its hash. */
  lemma CountedByHash(keys: seq<Point>, i: nat)
    requires i < |keys| && keys[i] != 0
    ensures (forall j :: 0 <= j < |keys| ==> keys[j] == keys[0]) ==>
              Coefficient(keys, keys[i]) == H.coefficient(keys, keys[i])
    ensures forall second :: IsFirstOther(keys, second) ==>
              Coefficient(keys, keys[i]) == if keys[i] == keys[second] then 1 else H.coefficient(keys, keys[i])
  {
    SecondFromExact(keys, 1);
  }

  lemma {:induction false} SecondFromExact(keys: seq<Point>, i: nat)
    requires keys != [] && 0 < i
    ensures var s := SecondFrom(keys, i);
            || (s == 0 && forall j :: i <= j < |keys| ==> keys[j] == keys[0])
            || exists k :: i <= k < |keys| && keys[k] == s && s != keys[0]
                           && forall j :: i <= j < k ==> keys[j] == keys[0]
    decreases |keys| - i
  {
    if i < |keys| {
      if keys[i] == keys[0] { SecondFromExact(keys, i + 1); }
    }
  }

  /** The sum of the first m keys, each times its coefficient in the whole list. */
  function KeySum(keys: seq<Point>, m: nat): Point
    requires m <= |keys|
  {
    if m == 0 then 0
    else Add(KeySum(keys, m - 1), Mul(Coefficient(keys, keys[m - 1]), keys[m - 1]))
  }

  /** What the keyagg cache holds: the keys (through their hash), the current aggregate Q, and
      BIP327's gacc (negated or not) and tacc. */
  datatype KeyAgg = KeyAgg(keys: seq<Point>, q: Point, negated: bool, tacc: Scalar)

  function KeyAggregate(keys: seq<Point>): Option<KeyAgg> {
    var q := KeySum(keys, |keys|);
    if keys == [] || q == 0 then None else Some(KeyAgg(keys, q, false, 0))
  }

  /** BIP327's ApplyTweak; None is the 0 the C call answers, which leaves the cache alone. */
  function ApplyTweak(agg: KeyAgg, xonly: bool, tweak: nat): Option<KeyAgg> {
    if tweak >= C.n then None
    else
      var flip := xonly && Odd(agg.q);
      var q := Add(Sgn(flip, agg.q), tweak);
      if q == 0 then None
      else Some(KeyAgg(agg.keys, q, agg.negated != flip, Add(Sgn(flip, agg.tacc), tweak)))
  }

  /** Q = gacc * Q_0 + tacc * G. */
  ghost predicate TweakInvariant(agg: KeyAgg) {
    && agg.q != 0
    && agg.keys != []
    && agg.q == Add(Sgn(agg.negated, KeySum(agg.keys, |agg.keys|)), agg.tacc)
  }

  /** The aggregate of one key and of two different ones, in hashes. */
  lemma AggregateOfTwo(a: Point, b: Point)
    requires a != 0 && b != 0 && a != b
    ensures KeySum([a], 1) == Mul(H.coefficient([a], a), a)
    ensures KeySum([a, b], 2) == Add(Mul(H.coefficient([a, b], a), a), b)
  {
    CountedByHash([a], 0);
    CountedByHash([a, b], 0);
    CountedByHash([a, b], 1);
    MulOne(b);
    assert KeySum([a, b], 2) == Add(KeySum([a, b], 1), Mul(Coefficient([a, b], b), b));
    assert KeySum([a, b], 1) == Add(KeySum([a, b], 0), Mul(Coefficient([a, b], a), a));
    assert KeySum([a], 1) == Add(KeySum([a], 0), Mul(Coefficient([a], a), a));
  }

  /** A list aggregates exactly where it has keys and they do not cancel, to their sum, untweaked. */
  lemma AggregatesUntweaked(keys: seq<Point>, agg: KeyAgg)
    ensures KeyAggregate(keys) == Some(agg)
            <==> && keys != [] && agg.keys == keys && agg.q == KeySum(keys, |keys|) != 0
                 && !agg.negated && agg.tacc == 0
  {}

  lemma AggregateInvariant(keys: seq<Point>)
    ensures var r := KeyAggregate(keys); r.Some? ==> TweakInvariant(r.value) && r.value.keys == keys
  {}

  lemma TweakKeepsInvariant(agg: KeyAgg, xonly: bool, tweak: nat)
    requires TweakInvariant(agg)
    ensures var r := ApplyTweak(agg, xonly, tweak);
            r.Some? ==> TweakInvariant(r.value) && r.value.keys == agg.keys
  {
    var r := ApplyTweak(agg, xonly, tweak);
    if r.Some? {
      var flip := xonly && Odd(agg.q);
      var q0 := KeySum(agg.keys, |agg.keys|);
      SgnAdd(flip, Sgn(agg.negated, q0), agg.tacc);
      AddAssoc(Sgn(flip, Sgn(agg.negated, q0)), Sgn(flip, agg.tacc), tweak);
    }
  }

  datatype Tweak = Tweak(xonly: bool, value: nat)

  /** A cache after a run of tweaks, the refused ones having raised and changed nothing. */
  function AfterTweaks(agg: KeyAgg, tweaks: seq<Tweak>): KeyAgg {
    if tweaks == [] then agg
    else
      var before := AfterTweaks(agg, tweaks[..|tweaks| - 1]);
      var t := tweaks[|tweaks| - 1];
      match ApplyTweak(before, t.xonly, t.value)
      case None => before
      case Some(after) => after
  }

  lemma {:induction false} RunKeepsInvariant(agg: KeyAgg, tweaks: seq<Tweak>)
    requires TweakInvariant(agg)
    ensures TweakInvariant(AfterTweaks(agg, tweaks)) && AfterTweaks(agg, tweaks).keys == agg.keys
  {
    if tweaks != [] {
      var rest := tweaks[..|tweaks| - 1];
      var t := tweaks[|tweaks| - 1];
      RunKeepsInvariant(agg, rest);
      TweakKeepsInvariant(AfterTweaks(agg, rest), t.xonly, t.value);
    }
  }

  // ------------------------------------------------------------ nonces and the session

  datatype Nonce = Nonce(r1: Point, r2: Point)

  function NonceSum(nonces: seq<Nonce>): Nonce {
    if nonces == [] then Nonce(0, 0)
    else
      var rest := NonceSum(nonces[..|nonces| - 1]);
      var last := nonces[|nonces| - 1];
      Nonce(Add(rest.r1, last.r1), Add(rest.r2, last.r2))
  }

  /** What nonce processing fixes: the x of the final nonce R, whether its y is odd, the nonce
      coefficient, the challenge, and the part of s the tweaks contribute. */
  datatype SessionValues = SessionValues(rx: int, nonceOdd: bool, b: Scalar, e: Scalar, tweakPart: Scalar)

  function Effective(b: Scalar, nonce: Nonce): Point {
    Add(nonce.r1, Mul(b, nonce.r2))
  }

  function Binding(agg: KeyAgg, aggnonce: Nonce, msg: Octets): Scalar {
    H.binding(aggnonce.r1, aggnonce.r2, X(agg.q), msg)
  }

  /** BIP327's "Session Context": R is G where the effective nonce is the point at infinity. */
  function Process(aggnonce: Nonce, msg: Octets, agg: KeyAgg): SessionValues {
    var b := Binding(agg, aggnonce, msg);
    var sum := Effective(b, aggnonce);
    var r := if sum == 0 then 1 else sum;
    var e := H.challenge(X(r), X(agg.q), msg);
    SessionValues(X(r), Odd(r), b, e, Mul(e, Sgn(Odd(agg.q), agg.tacc)))
  }

  // ------------------------------------------------------------ partial signatures

  /** BIP327's g * gacc: the sign of every signer's key in this session. */
  predicate KeyNegated(agg: KeyAgg) {
    Odd(agg.q) != agg.negated
  }

  /** BIP327 "Signing", in the order the C call computes it. */
  function PartialSign(k1: Scalar, k2: Scalar, d: Scalar, agg: KeyAgg, session: SessionValues): Scalar {
    var sk := Mul(Sgn(KeyNegated(agg), d), Coefficient(agg.keys, d));
    var k := Add(Sgn(session.nonceOdd, k1), Mul(session.b, Sgn(session.nonceOdd, k2)));
    Add(Mul(session.e, sk), k)
  }

  /** BIP327 "Partial Signature Verification": the point equation, over the public values. */
  predicate PartialVerify(s: Scalar, nonce: Nonce, key: Point, agg: KeyAgg, session: SessionValues) {
    var e := Sgn(KeyNegated(agg), Mul(session.e, Coefficient(agg.keys, key)));
    s == Add(Mul(e, key), Sgn(session.nonceOdd, Effective(session.b, nonce)))
  }

  /** One signer's share of s, with the signs outside the products. */
  function Share(nonce: Nonce, key: Point, agg: KeyAgg, session: SessionValues): Scalar {
    Add(Sgn(session.nonceOdd, Effective(session.b, nonce)),
        Mul(session.e, Sgn(KeyNegated(agg), Mul(Coefficient(agg.keys, key), key))))
  }

  lemma PartialVerifyIsShare(s: Scalar, nonce: Nonce, key: Point, agg: KeyAgg, session: SessionValues)
    ensures PartialVerify(s, nonce, key, agg, session) <==> s == Share(nonce, key, agg, session)
  {
    var mu := Coefficient(agg.keys, key);
    MulSgn(KeyNegated(agg), Mul(session.e, mu), key);
    MulAssoc(session.e, mu, key);
    MulSgn(KeyNegated(agg), session.e, Mul(mu, key));
  }

  lemma PartialSignIsShare(k1: Scalar, k2: Scalar, d: Scalar, agg: KeyAgg, session: SessionValues)
    ensures PartialSign(k1, k2, d, agg, session) == Share(Nonce(k1, k2), d, agg, session)
  {
    var mu := Coefficient(agg.keys, d);
    MulSgn(KeyNegated(agg), d, mu);
    MulComm(d, mu);
    MulComm(Sgn(KeyNegated(agg), d), mu);
    MulSgn(KeyNegated(agg), mu, d);
    MulSgn(session.nonceOdd, session.b, k2);
    SgnAdd(session.nonceOdd, k1, Mul(session.b, k2));
  }

  /** An honest partial signature passes the check `partial_sign` ends in, and no other scalar does. */
  lemma OnlyTheHonestPartialPasses(k1: Scalar, k2: Scalar, d: Scalar, s: Scalar, agg: KeyAgg, session: SessionValues)
    ensures PartialVerify(s, Nonce(k1, k2), d, agg, session) <==> s == PartialSign(k1, k2, d, agg, session)
  {
    PartialVerifyIsShare(s, Nonce(k1, k2), d, agg, session);
    PartialSignIsShare(k1, k2, d, agg, session);
  }

  // ------------------------------------------------------------ the aggregate signature

  function PartialSigAgg(session: SessionValues, sigs: seq<Scalar>): Bip340.Signature {
    Bip340.Signature(session.rx, Add(Sum(sigs), session.tweakPart))
  }

  ghost predicate AllPass(sigs: seq<Scalar>, nonces: seq<Nonce>, agg: KeyAgg, session: SessionValues)
    requires |sigs| == |nonces| == |agg.keys|
  {
    forall i :: 0 <= i < |sigs| ==> PartialVerify(sigs[i], nonces[i], agg.keys[i], agg, session)
  }

  /** The first m passing partial signatures add up to the nonce sum and the key sum, signs outside. */
  lemma {:induction false} ShareSum(sigs: seq<Scalar>, nonces: seq<Nonce>, agg: KeyAgg, session: SessionValues, m: nat)
    requires |sigs| == |nonces| == |agg.keys| && m <= |sigs|
    requires AllPass(sigs, nonces, agg, session)
    ensures Sum(sigs[..m]) == Add(Sgn(session.nonceOdd, Effective(session.b, NonceSum(nonces[..m]))),
                                  Mul(session.e, Sgn(KeyNegated(agg), KeySum(agg.keys, m))))
  {
    if m == 0 {
      MulZero(session.b); MulComm(session.b, 0);
      MulZero(session.e); MulComm(session.e, 0);
    } else {
      hide PartialVerify, Coefficient, Effective, Add, Mul, Sgn;
      ShareSum(sigs, nonces, agg, session, m - 1);
      assert sigs[..m][..m - 1] == sigs[..m - 1];
      assert nonces[..m][..m - 1] == nonces[..m - 1];
      LastShare(Sum(sigs[..m - 1]), sigs[m - 1], NonceSum(nonces[..m - 1]), nonces[m - 1],
                KeySum(agg.keys, m - 1), agg.keys[m - 1], agg, session);
    }
  }

  lemma LastShare(sum: Scalar, sig: Scalar, a: Nonce, z: Nonce, q: Point, key: Point, agg: KeyAgg,
                  session: SessionValues)
    requires sum == Add(Sgn(session.nonceOdd, Effective(session.b, a)), Mul(session.e, Sgn(KeyNegated(agg), q)))
    requires PartialVerify(sig, z, key, agg, session)
    ensures Add(sum, sig)
            == Add(Sgn(session.nonceOdd, Effective(session.b, Nonce(Add(a.r1, z.r1), Add(a.r2, z.r2)))),
                   Mul(session.e, Sgn(KeyNegated(agg), Add(q, Mul(Coefficient(agg.keys, key), key)))))
  {
    hide PartialVerify, Coefficient, Effective, Add, Mul, Sgn;
    var last := Mul(Coefficient(agg.keys, key), key);
    PartialVerifyIsShare(sig, z, key, agg, session);
    NonceStep(session, a, z);
    KeyStep(session, KeyNegated(agg), q, last);
    AddFour(Sgn(session.nonceOdd, Effective(session.b, a)), Mul(session.e, Sgn(KeyNegated(agg), q)),
            Sgn(session.nonceOdd, Effective(session.b, z)), Mul(session.e, Sgn(KeyNegated(agg), last)));
  }

  lemma NonceStep(session: SessionValues, a: Nonce, z: Nonce)
    ensures Sgn(session.nonceOdd, Effective(session.b, Nonce(Add(a.r1, z.r1), Add(a.r2, z.r2))))
            == Add(Sgn(session.nonceOdd, Effective(session.b, a)), Sgn(session.nonceOdd, Effective(session.b, z)))
  {
    MulAddRight(session.b, a.r2, z.r2);
    AddFour(a.r1, z.r1, Mul(session.b, a.r2), Mul(session.b, z.r2));
    SgnAdd(session.nonceOdd, Effective(session.b, a), Effective(session.b, z));
  }

  lemma KeyStep(session: SessionValues, negated: bool, a: Point, z: Point)
    ensures Mul(session.e, Sgn(negated, Add(a, z)))
            == Add(Mul(session.e, Sgn(negated, a)), Mul(session.e, Sgn(negated, z)))
  {
    SgnAdd(negated, a, z);
    MulAddRight(session.e, Sgn(negated, a), Sgn(negated, z));
  }

  /** e times the signed key sum, plus the tweak part, is e times the even-y aggregate key. */
  lemma KeyAndTweakPart(agg: KeyAgg, e: Scalar)
    requires TweakInvariant(agg)
    ensures Add(Mul(e, Sgn(KeyNegated(agg), KeySum(agg.keys, |agg.keys|))), Mul(e, Sgn(Odd(agg.q), agg.tacc)))
            == Mul(e, Even(agg.q))
  {
    hide Mul, KeySum;
    var q0 := KeySum(agg.keys, |agg.keys|);
    SgnAdd(Odd(agg.q), Sgn(agg.negated, q0), agg.tacc);
    MulAddRight(e, Sgn(KeyNegated(agg), q0), Sgn(Odd(agg.q), agg.tacc));
  }

  /** Blame soundness.  Where every partial signature passes for its own signer, the aggregate
      verifies under the x of the current aggregate key exactly when the effective nonce is a point. */
  lemma AllPassVerifies(sigs: seq<Scalar>, nonces: seq<Nonce>, msg: Octets, agg: KeyAgg)
    requires TweakInvariant(agg) && |sigs| == |nonces| == |agg.keys|
    requires AllPass(sigs, nonces, agg, Process(NonceSum(nonces), msg, agg))
    ensures Bip340.Verify(X(agg.q), msg, PartialSigAgg(Process(NonceSum(nonces), msg, agg), sigs))
            <==> Effective(Binding(agg, NonceSum(nonces), msg), NonceSum(nonces)) != 0
  {
    assert agg.q != 0;
    hide Mul, Sum, NonceSum, KeySum, PartialVerify, AllPass, TweakInvariant, Add, Bip340.Verify;
    var session := Process(NonceSum(nonces), msg, agg);
    var sum := Effective(session.b, NonceSum(nonces));
    AggregateScalar(sigs, nonces, agg, session, session.e);
    if sum != 0 { EvenPoint(sum); }
    Bip340.VerifyEquation(agg.q, msg, session.rx, Sgn(session.nonceOdd, sum), PartialSigAgg(session, sigs).s);
  }

  /** The s of the aggregate: the signed nonce sum, and e times the even-y aggregate key. */
  lemma AggregateScalar(sigs: seq<Scalar>, nonces: seq<Nonce>, agg: KeyAgg, session: SessionValues, e: Scalar)
    requires TweakInvariant(agg) && |sigs| == |nonces| == |agg.keys|
    requires AllPass(sigs, nonces, agg, session)
    requires e == session.e && session.tweakPart == Mul(e, Sgn(Odd(agg.q), agg.tacc))
    ensures PartialSigAgg(session, sigs).s
            == Add(Sgn(session.nonceOdd, Effective(session.b, NonceSum(nonces))), Mul(e, Even(agg.q)))
  {
    hide Mul, Sum, NonceSum, KeySum, PartialVerify, Add, Effective, AllPass, TweakInvariant;
    var key := Mul(e, Sgn(KeyNegated(agg), KeySum(agg.keys, |agg.keys|)));
    assert sigs[..|sigs|] == sigs && nonces[..|sigs|] == nonces;
    ShareSum(sigs, nonces, agg, session, |sigs|);
    KeyAndTweakPart(agg, e);
    AddAssoc(Sgn(session.nonceOdd, Effective(session.b, NonceSum(nonces))), key, session.tweakPart);
  }

  /** So an aggregate that fails names a partial signature the blame check rejects. */
  lemma FailureHasACulprit(sigs: seq<Scalar>, nonces: seq<Nonce>, msg: Octets, agg: KeyAgg)
    requires TweakInvariant(agg) && |sigs| == |nonces| == |agg.keys|
    ensures var session := Process(NonceSum(nonces), msg, agg);
            Effective(session.b, NonceSum(nonces)) != 0
            && !Bip340.Verify(X(agg.q), msg, PartialSigAgg(session, sigs)) ==>
              exists i :: 0 <= i < |sigs| && !PartialVerify(sigs[i], nonces[i], agg.keys[i], agg, session)
  {
    if AllPass(sigs, nonces, agg, Process(NonceSum(nonces), msg, agg)) {
      AllPassVerifies(sigs, nonces, msg, agg);
    }
  }

  /** Correctness: keys with repetitions, any run of accepted and refused tweaks, honest signers. */
  lemma HonestSessionVerifies(keys: seq<Point>, tweaks: seq<Tweak>, nonces: seq<Nonce>, msg: Octets, sigs: seq<Scalar>)
    requires |keys| == |nonces| == |sigs| && KeyAggregate(keys).Some?
    requires var agg := AfterTweaks(KeyAggregate(keys).value, tweaks);
             var session := Process(NonceSum(nonces), msg, agg);
             forall i :: 0 <= i < |keys| ==>
               sigs[i] == PartialSign(nonces[i].r1, nonces[i].r2, keys[i], agg, session)
    ensures var agg := AfterTweaks(KeyAggregate(keys).value, tweaks);
            Bip340.Verify(X(agg.q), msg, PartialSigAgg(Process(NonceSum(nonces), msg, agg), sigs))
            <==> Effective(Binding(agg, NonceSum(nonces), msg), NonceSum(nonces)) != 0
  {
    var agg := AfterTweaks(KeyAggregate(keys).value, tweaks);
    var session := Process(NonceSum(nonces), msg, agg);
    AggregateInvariant(keys);
    RunKeepsInvariant(KeyAggregate(keys).value, tweaks);
    forall i | 0 <= i < |keys|
      ensures PartialVerify(sigs[i], nonces[i], keys[i], agg, session)
    {
      OnlyTheHonestPartialPasses(nonces[i].r1, nonces[i].r2, keys[i], sigs[i], agg, session);
    }
    AllPassVerifies(sigs, nonces, msg, agg);
  }
}
