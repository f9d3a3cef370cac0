/** ECDSA over the exponent group: signing, verifying, recovering, and how they fit (SEC 1 version 2,
    sections 4.1.3, 4.1.4 and 4.1.6). */
module Ecdsa {
  import opened Results
  import opened Group
  import opened SignatureOctets

  /** An x coordinate modulo n: the field order lies between n and 2n. */
  function ModN(x: int): Scalar
    requires 0 <= x < C.p
  {
    if x < C.n then x else x - C.n
  }

  /** The higher of s and n - s. */
  predicate IsHigh(s: Scalar) {
    2 * s > C.n
  }

  // ------------------------------------------------------------ verification

  /** The nonce point a key and a signature imply: (z + r * Q) / s. */
  function NoncePoint(z: Scalar, sig: Signature, key: Point): Point {
    var w := Inv(sig.s);
    Add(Mul(w, z), Mul(Mul(w, sig.r), key))
  }

  /** The verification equation alone, which does not ask for the lower s. */
  predicate Equation(z: Scalar, sig: Signature, key: Point) {
    && sig.r != 0 && sig.s != 0
    && var point := NoncePoint(z, sig, key);
    point != 0 && ModN(X(point)) == sig.r
  }

  /** secp256k1_ecdsa_verify. */
  predicate Verify(z: Scalar, sig: Signature, key: Point) {
    !IsHigh(sig.s) && Equation(z, sig, key)
  }

  lemma NoncePointSolves(z: Scalar, sig: Signature, key: Point, point: Point)
    requires sig.s != 0
    ensures point == NoncePoint(z, sig, key) <==> Mul(sig.s, point) == Add(z, Mul(sig.r, key))
  {
    var w := Inv(sig.s);
    MulAssoc(w, sig.r, key);
    MulAddRight(w, z, Mul(sig.r, key));
    Undo(sig.s, Add(z, Mul(sig.r, key)));
    Undo(sig.s, point);
  }

  /** Verification in full, over the integers (SEC 1 version 2, section 4.1.4, and the lower s). */
  lemma VerifyExact(z: Scalar, sig: Signature, key: Point)
    ensures Verify(z, sig, key)
            <==> && 2 * sig.s < C.n && sig.r != 0 && sig.s != 0
                 && exists point: Nonzero ::
                      Mul(sig.s, point) == Add(z, Mul(sig.r, key)) && (X(point) == sig.r || X(point) == sig.r + C.n)
  {
    OrderIsOdd();
    if sig.s != 0 {
      hide Mul, Add, Inv;
      forall point: Nonzero
        ensures Mul(sig.s, point) == Add(z, Mul(sig.r, key)) <==> point == NoncePoint(z, sig, key)
      {
        NoncePointSolves(z, sig, key, point);
      }
      var point := NoncePoint(z, sig, key);
      NoncePointSolves(z, sig, key, point);
    }
  }

  // ------------------------------------------------------------ the lower s

  function Normalized(sig: Signature): Signature {
    if IsHigh(sig.s) then Signature(sig.r, Neg(sig.s)) else sig
  }

  lemma EquationIgnoresTheSign(z: Scalar, sig: Signature, key: Point)
    ensures Equation(z, sig, key) <==> Equation(z, Signature(sig.r, Neg(sig.s)), key)
  {
    if sig.s != 0 {
      var point := NoncePoint(z, sig, key);
      NoncePointSolves(z, sig, key, point);
      MulNeg(sig.s, Neg(point));
      MulNeg(sig.s, point);
      NoncePointSolves(z, Signature(sig.r, Neg(sig.s)), key, Neg(point));
      if point != 0 { SameX(point, Neg(point)); }
    }
  }

  /** Normalizing first: the same verdict for both forms, and it is the equation's.  Without it at
      most one of the two forms verifies, and it is the lower one. */
  lemma NormalizedVerdict(z: Scalar, sig: Signature, key: Point)
    ensures var other := Signature(sig.r, Neg(sig.s));
            && (Verify(z, Normalized(sig), key) <==> Equation(z, sig, key))
            && (Verify(z, Normalized(other), key) <==> Equation(z, sig, key))
            && !(Verify(z, sig, key) && Verify(z, other, key))
            && (Verify(z, sig, key) || Verify(z, other, key) <==> Equation(z, sig, key))
  {
    EquationIgnoresTheSign(z, sig, key);
    OrderIsOdd();
  }

  lemma NormalizedTwice(sig: Signature)
    ensures Normalized(Normalized(sig)) == Normalized(sig)
    ensures Normalized(Signature(sig.r, Neg(sig.s))) == Normalized(sig)
    ensures var low := Normalized(sig);
            low.r == sig.r && 2 * low.s < C.n && low.s == if 2 * sig.s < C.n then sig.s else C.n - sig.s
  {
    OrderIsOdd();
  }

  // ------------------------------------------------------------ signing

  /** One signature from one nonce: None where r or s is zero, and the id of the nonce point. */
  function SignWith(z: Scalar, d: Scalar, k: Nonzero): Option<(Signature, nat)> {
    var r := ModN(X(k));
    var s := Mul(Inv(k), Add(z, Mul(r, d)));
    if r == 0 || s == 0 then None
    else
      var high := IsHigh(s);
      Some((Signature(r, Sgn(high, s)), IdOf(Sgn(high, k))))
  }

  /** The id that names a point among those whose x is r modulo n. */
  function IdOf(point: Nonzero): nat {
    (if X(point) >= C.n then 2 else 0) + (if Odd(point) then 1 else 0)
  }

  /** When one nonce signs, and what: r is the x of its point modulo n, s is the lower of the two
      solutions of s * k = z + r * d, and neither is 0. */
  lemma SignWithExact(z: Scalar, d: Scalar, k: Nonzero)
    ensures SignWith(z, d, k).Some? <==>
              && X(k) != 0 && X(k) != C.n
              && Add(z, Mul(if X(k) < C.n then X(k) else X(k) - C.n, d)) != 0
    ensures SignWith(z, d, k).Some? ==>
              var sig := SignWith(z, d, k).value.0;
              && (sig.r == X(k) || sig.r + C.n == X(k)) && 0 < 2 * sig.s < C.n
              && (Mul(sig.s, k) == Add(z, Mul(sig.r, d)) || Mul(sig.s, k) == Neg(Add(z, Mul(sig.r, d))))
  {
    hide Mul, Inv, Add, IdOf;
    OrderIsOdd();
    SolutionExact(k, Add(z, Mul(ModN(X(k)), d)));
  }

  lemma SolutionExact(k: Nonzero, t: Scalar)
    ensures var s := Mul(Inv(k), t);
            Mul(s, k) == t && Mul(Neg(s), k) == Neg(t) && (s == 0 <==> t == 0)
  {
    var s := Mul(Inv(k), t);
    Undo(k, t);
    MulComm(k, s);
    MulNeg(s, k);
    MulZero(k);
    MulComm(Inv(k), 0);
    MulZero(Inv(k));
  }

  lemma SignedNoncePoint(z: Scalar, d: Scalar, k: Nonzero)
    requires SignWith(z, d, k).Some?
    ensures var sig := SignWith(z, d, k).value.0;
            NoncePoint(z, sig, d) == k || NoncePoint(z, sig, d) == Neg(k)
    ensures var (sig, id) := SignWith(z, d, k).value; id == IdOf(NoncePoint(z, sig, d))
  {
    var r := ModN(X(k));
    var t := Add(z, Mul(r, d));
    var s := Mul(Inv(k), t);
    Undo(k, t);
    MulComm(k, s);
    MulNeg(s, Neg(k));
    MulNeg(s, k);
    var sig := SignWith(z, d, k).value.0;
    NoncePointSolves(z, sig, d, Sgn(IsHigh(s), k));
  }

  /** What is signed verifies, and is in the lower form. */
  lemma SignedVerifies(z: Scalar, d: Scalar, k: Nonzero)
    requires SignWith(z, d, k).Some?
    ensures Verify(z, SignWith(z, d, k).value.0, d)
  {
    SignedNoncePoint(z, d, k);
    SameX(k, Neg(k));
  }

  // ------------------------------------------------------------ recovery

  /** The point an id names: the x is r, or r + n for ids 2 and 3; the y is odd for ids 1 and 3. */
  function Named(r: Scalar, id: nat): Option<Point> {
    var x := if id >= 2 then r + C.n else r;
    if x >= C.p then None
    else match LiftX(x)
         case None => None
         case Some(p) => Some(Sgn(id % 2 == 1, p))
  }

  /** The key under which (r, s) has this nonce point: (s * R - z) / r. */
  function KeyFor(z: Scalar, sig: Signature, point: Point): Point {
    Mul(Inv(sig.r), Sub(Mul(sig.s, point), z))
  }

  /** secp256k1_ecdsa_recover. */
  function Recover(z: Scalar, sig: Signature, id: nat): Option<Point> {
    if sig.r == 0 || sig.s == 0 then None
    else match Named(sig.r, id)
         case None => None
         case Some(point) =>
           var key := KeyFor(z, sig, point);
           if key == 0 then None else Some(key)
  }

  lemma NamedExact(r: Scalar, id: nat, point: Point)
    requires r != 0 && id < 4
    ensures Named(r, id) == Some(point) <==> point != 0 && ModN(X(point)) == r && id == IdOf(point)
    ensures Named(r, id) == Some(point)
            <==> point != 0 && X(point) == (if id >= 2 then r + C.n else r) && (Odd(point) <==> id == 1 || id == 3)
  {
    var x := if id >= 2 then r + C.n else r;
    LiftXExact(x, Even(point));
    if point != 0 { EvenPoint(point); }
    if LiftX(x).Some? {
      LiftXExact(x, LiftX(x).value);
      SameX(LiftX(x).value, Neg(LiftX(x).value));
    }
  }

  lemma KeyAndPoint(z: Scalar, sig: Signature, point: Point, key: Point)
    requires sig.r != 0 && sig.s != 0
    ensures key == KeyFor(z, sig, point) <==> point == NoncePoint(z, sig, key)
  {
    var t := Sub(Mul(sig.s, point), z);
    Undo(sig.r, t);
    Undo(sig.r, key);
    NoncePointSolves(z, sig, key, point);
    AddAssoc(z, Mul(sig.s, point), Neg(z));
    AddCancel(z, t, Mul(sig.r, key));
    assert Add(z, t) == Mul(sig.s, point) by {
      AddAssoc(Mul(sig.s, point), Neg(z), z);
    }
  }

  /** One id and no other: a key is recovered by an id exactly when the signature satisfies the
      equation under it and the id names the nonce point. */
  lemma RecoverExact(z: Scalar, sig: Signature, id: nat, key: Point)
    requires key != 0 && id < 4
    ensures Recover(z, sig, id) == Some(key)
            <==> Equation(z, sig, key) && id == IdOf(NoncePoint(z, sig, key))
  {
    if sig.r != 0 && sig.s != 0 {
      NamedExact(sig.r, id, NoncePoint(z, sig, key));
      KeyAndPoint(z, sig, NoncePoint(z, sig, key), key);
      if Named(sig.r, id).Some? {
        NamedExact(sig.r, id, Named(sig.r, id).value);
        KeyAndPoint(z, sig, Named(sig.r, id).value, key);
      }
    }
  }

  /** The keys under which a low-s signature verifies are the keys recovery answers over the four ids. */
  lemma VerifyingKeysAreTheRecovered(z: Scalar, sig: Signature, key: Point)
    requires key != 0 && !IsHigh(sig.s)
    ensures Verify(z, sig, key) <==> exists id: nat :: id < 4 && Recover(z, sig, id) == Some(key)
  {
    if Verify(z, sig, key) {
      RecoverExact(z, sig, IdOf(NoncePoint(z, sig, key)), key);
    }
    forall id: nat | id < 4 && Recover(z, sig, id) == Some(key)
      ensures Verify(z, sig, key)
    {
      RecoverExact(z, sig, id, key);
    }
  }

  /** What is signed recovers its signer, under the id it was signed with. */
  lemma SignedRecovers(z: Scalar, d: Nonzero, k: Nonzero)
    ensures SignWith(z, d, k).Some? ==>
              var (sig, id) := SignWith(z, d, k).value; id < 4 && Recover(z, sig, id) == Some(d)
  {
    if SignWith(z, d, k).Some? {
      var (sig, id) := SignWith(z, d, k).value;
      SignedNoncePoint(z, d, k);
      SignedVerifies(z, d, k);
      RecoverExact(z, sig, id, d);
    }
  }
}
