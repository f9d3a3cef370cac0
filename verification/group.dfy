/** The primitive layer: an arbitrary prime-order curve group, written by exponents.

    A point is its discrete logarithm to the base G, so the group is the integers modulo the
    prime order n with 0 for the point at infinity.  Coordinates stay abstract: an x coordinate
    that two exponents share exactly when they are equal or opposite, and the parity of y.
    `C` and `H` are constants without a value, so whatever is proved holds for every curve and
    for every choice of hash functions. */
module Group {
  import opened Results

  // ------------------------------------------------------------ the curve

  ghost predicate Prime(n: int) {
    n > 1 && forall d :: 1 < d < n ==> n % d != 0
  }

  const TWO_256 := 0x1_0000000000000000_0000000000000000_0000000000000000_0000000000000000

  /** n: the group order; p: the field order; x and odd: the coordinates of the k-th multiple of G. */
  datatype Params = Params(n: int, p: int, x: int -> int, odd: int -> bool)

  ghost predicate IsCurve(c: Params) {
    && Prime(c.n)
    && 2 < c.n < c.p < 2 * c.n && c.p < TWO_256
    && (forall a, b {:trigger c.x(a), c.x(b)} ::
          0 < a < c.n && 0 < b < c.n ==> (c.x(a) == c.x(b) <==> a == b || a + b == c.n))
    && (forall a {:trigger c.x(a)} :: 0 < a < c.n ==> 0 <= c.x(a) < c.p)
    && (forall a {:trigger c.odd(a)} :: 0 < a < c.n ==> c.odd(c.n - a) == !c.odd(a))
  }

  // y^2 = x^3 + 7 over the field of 13 elements has 7 points: the axioms above have a model.
  const TOY := Params(7, 13,
                      a => if a == 1 || a == 6 then 7 else if a == 2 || a == 5 then 8 else 11,
                      a => a == 2 || a == 4 || a == 6)

  type Curve = c: Params | IsCurve(c) witness TOY

  const C: Curve

  type Scalar = a: int | 0 <= a < C.n witness 0
  type Point = Scalar

  type Nonzero = a: Scalar | a != 0 witness 1

  type Octets = seq<int>

  /** 32 octets read as a number, which may be n or more. */
  type Word = w: int | 0 <= w < TWO_256 witness 0

  /** The hash functions of the standards; all but the BIP340 nonce, which a call answers as it is,
      already reduced to a scalar. */
  datatype HashFunctions = HashFunctions(
    challenge: (int, int, Octets) -> Scalar,                // BIP340/challenge: x of R, x of P, message
    nonce: (Scalar, int, Octets, Octets) -> Word,           // BIP0340/nonce: key, x of P, message, aux
    coefficient: (seq<Point>, Point) -> Scalar,             // KeyAgg coefficient: key list, key
    binding: (Point, Point, int, Octets) -> Scalar,         // MuSig/noncecoef: R1, R2, x of Q, message
    secretNonce: (Octets, Octets, nat) -> Nonzero,          // MuSig/nonce: randomness, other inputs, 1 or 2
    rfc6979: (Octets, Scalar, Octets) -> Nonzero,           // message hash, key, extra entropy or []
    inputs: (Octets, Point) -> Nonzero,                     // BIP0352/Inputs: outpoint, key sum
    shared: (Point, nat) -> Nonzero,                        // BIP0352/SharedSecret: ECDH point, k
    labelTweak: (Scalar, nat) -> Nonzero,                   // BIP0352/Label: scan key, m
    digest: Octets -> Scalar)                               // a 32-octet hash read as a scalar

  const ZERO_HASH := HashFunctions((a, b, c) => 0, (a, b, c, d) => 0, (a, b) => 0, (a, b, c, d) => 0,
                                   (a, b, c) => 1, (a, b, c) => 1, (a, b) => 1, (a, b) => 1, (a, b) => 1, a => 0)

  type Hashes = h: HashFunctions | true witness ZERO_HASH

  const H: Hashes

  // ------------------------------------------------------------ scalars

  /** A number modulo n. */
  function Reduced(w: nat): Scalar {
    if w < C.n then w else Reduced(w - C.n)
  }

  function Add(a: Scalar, b: Scalar): Scalar {
    if a + b < C.n then a + b else a + b - C.n
  }

  function Neg(a: Scalar): Scalar {
    if a == 0 then 0 else C.n - a
  }

  function Sub(a: Scalar, b: Scalar): Scalar {
    Add(a, Neg(b))
  }

  /** b copies of a, added: the product modulo n, and the point b * a. */
  function Mul(a: Scalar, b: nat): Scalar {
    if b == 0 then 0 else Add(a, Mul(a, b - 1))
  }

  /** Conditional negation, the sign of every standard used here. */
  function Sgn(negative: bool, a: Scalar): Scalar {
    if negative then Neg(a) else a
  }

  lemma {:induction false} ReducedExact(w: nat)
    ensures w < C.n ==> Reduced(w) == w
    ensures exists q: nat :: w == q * C.n + Reduced(w)
  {
    if w < C.n {
      assert w == 0 * C.n + Reduced(w);
    } else {
      ReducedExact(w - C.n);
      var q: nat :| w - C.n == q * C.n + Reduced(w - C.n);
      assert (q + 1) * C.n == q * C.n + C.n;
    }
  }

  lemma AddFour(a: Scalar, b: Scalar, c: Scalar, d: Scalar)
    ensures Add(Add(a, b), Add(c, d)) == Add(Add(a, c), Add(b, d))
  {
    AddAssoc(a, b, Add(c, d)); AddAssoc(b, c, d);
    AddAssoc(a, c, Add(b, d)); AddAssoc(c, b, d);
    assert Add(b, c) == Add(c, b);
  }

  lemma AddAssoc(a: Scalar, b: Scalar, c: Scalar)
    ensures Add(Add(a, b), c) == Add(a, Add(b, c))
  {}

  lemma NegAdd(a: Scalar, b: Scalar)
    ensures Neg(Add(a, b)) == Add(Neg(a), Neg(b))
  {}

  lemma AddCancel(a: Scalar, b: Scalar, c: Scalar)
    ensures Add(a, b) == Add(a, c) <==> b == c
  {}

  lemma SgnAdd(s: bool, a: Scalar, b: Scalar)
    ensures Sgn(s, Add(a, b)) == Add(Sgn(s, a), Sgn(s, b))
  {
    NegAdd(a, b);
  }

  lemma {:induction false} MulAddLeft(a: Scalar, b: Scalar, k: nat)
    ensures Mul(Add(a, b), k) == Add(Mul(a, k), Mul(b, k))
  {
    if k != 0 {
      MulAddLeft(a, b, k - 1);
      AddFour(a, b, Mul(a, k - 1), Mul(b, k - 1));
    }
  }

  lemma {:induction false} MulPlus(a: Scalar, k: nat, l: nat)
    ensures Mul(a, k + l) == Add(Mul(a, k), Mul(a, l))
  {
    if k != 0 {
      MulPlus(a, k - 1, l);
      AddAssoc(a, Mul(a, k - 1), Mul(a, l));
      assert k + l - 1 == (k - 1) + l;
    }
  }

  lemma {:induction false} MulOne(k: nat)
    requires k <= C.n
    ensures Mul(1, k) == if k == C.n then 0 else k
  {
    if k != 0 { MulOne(k - 1); }
  }

  lemma {:induction false} MulZero(k: nat)
    ensures Mul(0, k) == 0
  {
    if k != 0 { MulZero(k - 1); }
  }

  lemma {:induction false} MulOrder(a: Scalar)
    ensures Mul(a, C.n) == 0
  {
    if a == 0 {
      MulZero(C.n);
    } else {
      MulOrder(a - 1);
      MulOne(C.n);
      MulAddLeft(a - 1, 1, C.n);
    }
  }

  lemma MulAddRight(a: Scalar, b: Scalar, c: Scalar)
    ensures Mul(a, Add(b, c)) == Add(Mul(a, b), Mul(a, c))
  {
    MulPlus(a, b, c);
    if b + c >= C.n {
      MulPlus(a, b + c - C.n, C.n);
      MulOrder(a);
    }
  }

  lemma {:induction false} MulComm(a: Scalar, b: Scalar)
    ensures Mul(a, b) == Mul(b, a)
  {
    if a == 0 {
      MulZero(b);
    } else {
      MulComm(a - 1, b);
      MulOne(b);
      MulAddLeft(a - 1, 1, b);
      assert Add(a - 1, 1) == a;
    }
  }

  lemma {:induction false} MulAssoc(a: Scalar, b: Scalar, k: nat)
    ensures Mul(Mul(a, b), k) == Mul(a, Mul(b, k))
  {
    if k != 0 {
      MulAssoc(a, b, k - 1);
      MulAddRight(a, b, Mul(b, k - 1));
    }
  }

  lemma MulNeg(a: Scalar, b: Scalar)
    ensures Mul(Neg(a), b) == Neg(Mul(a, b)) == Mul(a, Neg(b))
  {
    MulAddLeft(a, Neg(a), b);
    MulZero(b);
    MulAddRight(a, b, Neg(b));
    AddCancel(Mul(a, b), Mul(Neg(a), b), Neg(Mul(a, b)));
    AddCancel(Mul(a, b), Mul(a, Neg(b)), Neg(Mul(a, b)));
  }

  lemma MulSgn(s: bool, a: Scalar, b: Scalar)
    ensures Mul(a, Sgn(s, b)) == Sgn(s, Mul(a, b)) == Mul(Sgn(s, a), b)
  {
    MulNeg(a, b);
  }

  lemma OrderIsOdd()
    ensures C.n % 2 == 1
  {
    assert IsCurve(C);
    assert C.n % 2 != 0;
  }

  // ------------------------------------------------------------ inverses

  ghost predicate Divides(d: int, a: int)
    requires d > 0
  {
    exists q :: a == q * d
  }

  lemma DividesSum(d: int, a: int, b: int)
    requires d > 0 && Divides(d, a) && Divides(d, b)
    ensures Divides(d, a + b)
  {
    var q, r :| a == q * d && b == r * d;
    assert a + b == (q + r) * d;
  }

  /** Euclid's algorithm on u and v, each known as a multiple of a: the multiplier that reaches
      their greatest common divisor. */
  function Bezout(a: Scalar, u: nat, v: nat, cu: Scalar, cv: Scalar): (r: (nat, Scalar))
    requires 0 < u <= C.n && 0 < v <= C.n
    decreases u + v
  {
    if u == v then (u, cu)
    else if u < v then Bezout(a, u, v - u, cu, Sub(cv, cu))
    else Bezout(a, u - v, v, Sub(cu, cv), cv)
  }

  lemma {:induction false} BezoutDivides(a: Scalar, u: nat, v: nat, cu: Scalar, cv: Scalar)
    requires 0 < u <= C.n && 0 < v <= C.n
    ensures var g := Bezout(a, u, v, cu, cv).0; 0 < g <= u && g <= v && Divides(g, u) && Divides(g, v)
    decreases u + v
  {
    var g := Bezout(a, u, v, cu, cv).0;
    if u == v {
      assert u == 1 * u;
    } else if u < v {
      BezoutDivides(a, u, v - u, cu, Sub(cv, cu));
      DividesSum(g, u, v - u);
    } else {
      BezoutDivides(a, u - v, v, Sub(cu, cv), cv);
      DividesSum(g, u - v, v);
    }
  }

  function Residue(u: nat): Scalar
    requires u <= C.n
  {
    if u == C.n then 0 else u
  }

  lemma {:induction false} BezoutReaches(a: Scalar, u: nat, v: nat, cu: Scalar, cv: Scalar)
    requires 0 < u <= C.n && 0 < v <= C.n
    requires Mul(a, cu) == Residue(u) && Mul(a, cv) == Residue(v)
    ensures var (g, x) := Bezout(a, u, v, cu, cv); 0 < g <= C.n && Mul(a, x) == Residue(g)
    decreases u + v
  {
    hide Mul;
    if u < v {
      MulAddRight(a, cv, Neg(cu)); MulNeg(a, cu);
      BezoutReaches(a, u, v - u, cu, Sub(cv, cu));
    } else if v < u {
      MulAddRight(a, cu, Neg(cv)); MulNeg(a, cv);
      BezoutReaches(a, u - v, v, Sub(cu, cv), cv);
    }
  }

  function Inv(a: Scalar): Scalar {
    if a == 0 then 0 else Bezout(a, a, C.n, 1, 0).1
  }

  lemma MulInv(a: Scalar)
    requires a != 0
    ensures Mul(a, Inv(a)) == 1
  {
    MulOne(1); MulComm(a, 1); MulOne(a);
    BezoutReaches(a, a, C.n, 1, 0);
    BezoutIsOne(a);
  }

  lemma BezoutIsOne(a: Scalar)
    requires a != 0
    ensures Bezout(a, a, C.n, 1, 0).0 == 1
  {
    BezoutDivides(a, a, C.n, 1, 0);
    OnlyOneDivides(Bezout(a, a, C.n, 1, 0).0);
  }

  lemma OnlyOneDivides(g: int)
    requires 0 < g < C.n && Divides(g, C.n)
    ensures g == 1
  {
    assert Prime(C.n);
    var q :| C.n == q * g;
    RemainderZero(C.n, q, g);
  }

  lemma RemainderZero(m: int, q: int, g: int)
    requires g > 0 && m == q * g
    ensures m % g == 0
  {
    var t, r := m / g, m % g;
    assert m == t * g + r;
    assert (q - t) * g == q * g - t * g;
    MulGrows(q - t, g);
  }

  lemma MulGrows(k: int, g: int)
    requires g > 0
    ensures k >= 1 ==> k * g >= g
    ensures k <= -1 ==> k * g <= -g
  {
    assert (k - 1) * g == k * g - g;
    assert (k + 1) * g == k * g + g;
  }

  lemma MulCancel(a: Scalar, b: Scalar, c: Scalar)
    requires a != 0
    ensures Mul(a, b) == Mul(a, c) <==> b == c
  {
    Undo(a, b); Undo(a, c);
  }

  lemma Undo(a: Scalar, b: Scalar)
    requires a != 0
    ensures Mul(Inv(a), Mul(a, b)) == b == Mul(a, Mul(Inv(a), b))
  {
    MulInv(a);
    MulComm(a, Inv(a));
    MulAssoc(Inv(a), a, b);
    MulAssoc(a, Inv(a), b);
    MulOne(b);
  }

  /** What Mul means in the integers. */
  lemma {:induction false} MulIsProduct(a: Scalar, b: nat)
    ensures exists q :: a * b == q * C.n + Mul(a, b)
  {
    if b == 0 {
      assert a * b == 0 * C.n + Mul(a, b);
    } else {
      MulIsProduct(a, b - 1);
      var q :| a * (b - 1) == q * C.n + Mul(a, b - 1);
      assert a * b == a * (b - 1) + a;
      assert (q + 1) * C.n == q * C.n + C.n;
      assert a * b == q * C.n + Mul(a, b) || a * b == (q + 1) * C.n + Mul(a, b);
    }
  }

  // ------------------------------------------------------------ coordinates

  function X(a: Point): int {
    C.x(a)
  }

  function Odd(a: Point): bool {
    a != 0 && C.odd(a)
  }

  /** The one of a and -a whose y is even. */
  function Even(a: Point): Point {
    Sgn(Odd(a), a)
  }

  lemma EvenPoint(a: Point)
    requires a != 0
    ensures Even(a) != 0 && X(Even(a)) == X(a) && !Odd(Even(a))
    ensures Even(Neg(a)) == Even(a)
  {}

  /** BIP340's lift_x: the even-y point with this x, if there is one. */
  function LiftX(x: int): Option<Point> {
    LiftFrom(x, 1)
  }

  function LiftFrom(x: int, a: nat): Option<Point>
    decreases C.n - a
  {
    if a >= C.n then None
    else if a != 0 && X(a) == x && !Odd(a) then Some(a)
    else LiftFrom(x, a + 1)
  }

  lemma {:induction false} LiftFromFinds(x: int, from: nat, a: Point)
    requires a != 0 && X(a) == x && !Odd(a) && from <= a
    ensures LiftFrom(x, from) == Some(a)
    decreases a - from
  {
    if from != 0 && X(from) == x && !Odd(from) {
      assert from == a || from + a == C.n;
    } else {
      LiftFromFinds(x, from + 1, a);
    }
  }

  lemma {:induction false} LiftFromSound(x: int, from: nat)
    ensures var r := LiftFrom(x, from); r.Some? ==> r.value != 0 && X(r.value) == x && !Odd(r.value)
    decreases C.n - from
  {
    if from < C.n && !(from != 0 && X(from) == x && !Odd(from)) { LiftFromSound(x, from + 1); }
  }

  lemma LiftXExact(x: int, a: Point)
    ensures LiftX(x) == Some(a) <==> a != 0 && X(a) == x && !Odd(a)
  {
    LiftFromSound(x, 1);
    if a != 0 && X(a) == x && !Odd(a) { LiftFromFinds(x, 1, a); }
  }

  lemma LiftOfX(a: Point)
    requires a != 0
    ensures LiftX(X(a)) == Some(Even(a))
  {
    EvenPoint(a);
    LiftXExact(X(a), Even(a));
  }

  lemma SameX(a: Point, b: Point)
    requires a != 0 && b != 0
    ensures X(a) == X(b) <==> a == b || a == Neg(b)
    ensures X(a) == X(b) && Odd(a) == Odd(b) <==> a == b
    ensures Odd(Neg(a)) != Odd(a)
  {}

  // ------------------------------------------------------------ sums

  function Sum(s: seq<Scalar>): Scalar {
    if s == [] then 0 else Add(Sum(s[..|s| - 1]), s[|s| - 1])
  }
}
