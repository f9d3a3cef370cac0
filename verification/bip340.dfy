/** BIP340 signatures over the exponent group. */
module Bip340 {
  import opened Results
  import opened Group

  /** The 64 octets: the x of the nonce point, and the scalar s. */
  datatype Signature = Signature(r: int, s: int)

  /** BIP340 "Verification". */
  predicate Verify(px: int, msg: Octets, sig: Signature) {
    match LiftX(px)
    case None => false
    case Some(p) =>
      && 0 <= sig.r < C.p && 0 <= sig.s < C.n
      && var e := H.challenge(sig.r, px, msg);
      var r := Sub(sig.s, Mul(e, p));
      r != 0 && !Odd(r) && X(r) == sig.r
  }

  /** The one equation behind every verification below: a signature whose s is R + e * even(P)
      verifies exactly when R is a point with even y and the x that was signed. */
  lemma VerifyEquation(p: Point, msg: Octets, rx: int, r: Point, s: Scalar)
    requires p != 0 && 0 <= rx < C.p
    requires s == Add(r, Mul(H.challenge(rx, X(p), msg), Even(p)))
    ensures Verify(X(p), msg, Signature(rx, s)) <==> r != 0 && !Odd(r) && X(r) == rx
  {
    LiftOfX(p);
    var t := Mul(H.challenge(rx, X(p), msg), Even(p));
    AddAssoc(r, t, Neg(t));
  }
}
