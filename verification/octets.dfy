/** The serializations of an ECDSA signature: 64 octets, and DER. */
module SignatureOctets {
  import opened Results
  import opened Group

  /** The parsed object: two scalars, either of which may be zero. */
  datatype Signature = Signature(r: Scalar, s: Scalar)

  predicate AreOctets(b: Octets) {
    forall i :: 0 <= i < |b| ==> 0 <= b[i] < 256
  }

  // ------------------------------------------------------------ big-endian integers

  function Pow256(length: nat): nat {
    if length == 0 then 1 else 256 * Pow256(length - 1)
  }

  function BigEndian(v: nat, length: nat): Octets {
    if length == 0 then [] else BigEndian(v / 256, length - 1) + [v % 256]
  }

  function FromBigEndian(b: Octets): int {
    if b == [] then 0 else FromBigEndian(b[..|b| - 1]) * 256 + b[|b| - 1]
  }

  lemma {:induction false} ReadsWritten(v: nat, length: nat)
    requires v < Pow256(length)
    ensures |BigEndian(v, length)| == length && AreOctets(BigEndian(v, length))
    ensures FromBigEndian(BigEndian(v, length)) == v
  {
    if length != 0 {
      ReadsWritten(v / 256, length - 1);
      assert BigEndian(v, length)[..length - 1] == BigEndian(v / 256, length - 1);
    }
  }

  lemma {:induction false} WritesRead(b: Octets)
    requires AreOctets(b)
    ensures 0 <= FromBigEndian(b) < Pow256(|b|)
    ensures BigEndian(FromBigEndian(b), |b|) == b
  {
    if b != [] {
      var rest := b[..|b| - 1];
      WritesRead(rest);
      assert b == rest + [b[|b| - 1]];
      assert FromBigEndian(b) / 256 == FromBigEndian(rest) && FromBigEndian(b) % 256 == b[|b| - 1];
    }
  }

  lemma Pow256Of32()
    ensures Pow256(32) == TWO_256 && Pow256(33) == 256 * TWO_256
  {
    assert Pow256(8) == 0x1_0000000000000000;
    PowAdds(8, 8); PowAdds(16, 16);
    assert Pow256(33) == 256 * Pow256(32);
  }

  lemma {:induction false} PowAdds(a: nat, b: nat)
    ensures Pow256(a + b) == Pow256(a) * Pow256(b)
  {
    if b != 0 {
      PowAdds(a, b - 1);
      assert a + b - 1 == a + (b - 1);
    }
  }

  // ------------------------------------------------------------ the compact form

  function SerializeCompact(sig: Signature): Octets {
    BigEndian(sig.r, 32) + BigEndian(sig.s, 32)
  }

  function ParseCompact(b: Octets): Option<Signature> {
    if |b| != 64 then None
    else
      var r, s := FromBigEndian(b[..32]), FromBigEndian(b[32..]);
      if 0 <= r < C.n && 0 <= s < C.n then Some(Signature(r, s)) else None
  }

  /** Both ways round: the 64 octets and the two scalars below n are one value. */
  lemma CompactRoundTrip(sig: Signature, b: Octets)
    requires AreOctets(b)
    ensures |SerializeCompact(sig)| == 64 && AreOctets(SerializeCompact(sig))
    ensures ParseCompact(b) == Some(sig) <==> b == SerializeCompact(sig)
  {
    hide BigEndian, FromBigEndian, Pow256, AreOctets;
    Half(sig.r);
    Half(sig.s);
    var c := SerializeCompact(sig);
    BothAreOctets(BigEndian(sig.r, 32), BigEndian(sig.s, 32));
    assert c[..32] == BigEndian(sig.r, 32) && c[32..] == BigEndian(sig.s, 32);
    if ParseCompact(b) == Some(sig) {
      BothAreOctets(b[..32], b[32..]);
      assert b == b[..32] + b[32..];
      WritesRead(b[..32]);
      WritesRead(b[32..]);
    }
  }

  lemma Half(v: Scalar)
    ensures var b := BigEndian(v, 32); |b| == 32 && AreOctets(b) && FromBigEndian(b) == v
  {
    Pow256Of32();
    ReadsWritten(v, 32);
  }

  lemma BothAreOctets(a: Octets, b: Octets)
    ensures AreOctets(a + b) <==> AreOctets(a) && AreOctets(b)
  {
    if AreOctets(a + b) {
      assert forall i :: 0 <= i < |a| ==> (a + b)[i] == a[i];
      assert forall i :: 0 <= i < |b| ==> (a + b)[|a| + i] == b[i];
    }
  }

  /** `_is_low_r_`: the leading octet of the compact form. */
  predicate IsLowR(sig: Signature) {
    Pow256Of32();
    ReadsWritten(sig.r, 32);
    SerializeCompact(sig)[0] < 0x80
  }

  lemma {:induction false} FirstOctet(b: Octets)
    requires AreOctets(b) && b != []
    ensures b[0] < 0x80 <==> FromBigEndian(b) < 128 * Pow256(|b| - 1)
    ensures b[0] == 0 <==> FromBigEndian(b) < Pow256(|b| - 1)
  {
    if |b| > 1 {
      assert b[..|b| - 1][0] == b[0];
      FirstOctet(b[..|b| - 1]);
    } else {
      assert b[..0] == [];
    }
  }

  lemma LowRIsTheTopBit(sig: Signature)
    ensures IsLowR(sig) <==> sig.r < TWO_256 / 2
  {
    Pow256Of32();
    ReadsWritten(sig.r, 32);
    FirstOctet(BigEndian(sig.r, 32));
    assert Pow256(32) == 256 * Pow256(31);
  }

  // ------------------------------------------------------------ DER integers

  function Size(v: nat): nat {
    if v < 256 then 1 else 1 + Size(v / 256)
  }

  lemma {:induction false} SizeIs(v: nat, k: nat)
    requires k >= 1 && v < Pow256(k) && (k == 1 || Pow256(k - 1) <= v)
    ensures Size(v) == k
  {
    if k == 1 {
    } else if k == 2 {
      assert Pow256(2) == 65536 && Pow256(1) == 256;
    } else {
      assert Pow256(k) == 256 * Pow256(k - 1) && Pow256(k - 1) == 256 * Pow256(k - 2);
      SizeIs(v / 256, k - 1);
      PowPositive(k - 2);
    }
  }

  lemma {:induction false} PowPositive(k: nat)
    ensures Pow256(k) >= 1
  {
    if k != 0 { PowPositive(k - 1); }
  }

  lemma {:induction false} SizeFits(v: nat)
    ensures Size(v) >= 1 && v < Pow256(Size(v)) && (Size(v) == 1 || Pow256(Size(v) - 1) <= v)
  {
    if v >= 256 { SizeFits(v / 256); }
  }

  /** The content octets: as few as hold the value, and a leading zero where the top bit is set. */
  function Content(v: nat): Octets {
    var b := BigEndian(v, Size(v));
    if b != [] && b[0] >= 0x80 then [0] + b else b
  }

  /** What the parser asks of the content of an integer (X.690, section 8.3.2). */
  predicate Minimal(c: Octets) {
    && c != []
    && !(c[0] == 0 && |c| > 1 && c[1] < 0x80)
    && !(c[0] == 0xFF && |c| > 1 && c[1] >= 0x80)
  }

  lemma {:induction false} LeadingZero(c: Octets)
    ensures FromBigEndian([0] + c) == FromBigEndian(c)
  {
    if c == [] {
      assert ([0] + c)[..0] == [];
    } else {
      assert ([0] + c)[..|c|] == [0] + c[..|c| - 1];
      LeadingZero(c[..|c| - 1]);
    }
  }

  /** The contents that are written are the minimal ones of a value that is not negative. */
  lemma ContentExact(c: Octets)
    requires AreOctets(c) && Minimal(c) && c[0] < 0x80
    ensures FromBigEndian(c) >= 0 && Content(FromBigEndian(c)) == c
  {
    hide BigEndian, FromBigEndian, Pow256, Size, AreOctets;
    if c[0] == 0 && |c| > 1 {
      var d := c[1..];
      assert c == [0] + d;
      BothAreOctets([0], d);
      LeadingZero(d);
      SizeOfRead(d);
    } else {
      SizeOfRead(c);
    }
  }

  lemma SizeOfRead(b: Octets)
    requires AreOctets(b) && b != [] && (b[0] != 0 || |b| == 1)
    ensures FromBigEndian(b) >= 0 && Size(FromBigEndian(b)) == |b|
    ensures BigEndian(FromBigEndian(b), Size(FromBigEndian(b))) == b
  {
    hide BigEndian, FromBigEndian, Size, Pow256;
    WritesRead(b);
    FirstOctet(b);
    SizeIs(FromBigEndian(b), |b|);
  }

  lemma ContentReads(v: nat)
    requires v < TWO_256
    ensures var c := Content(v);
            && AreOctets(c) && Minimal(c) && c[0] < 0x80 && FromBigEndian(c) == v
            && |c| <= 33 && (|c| <= 32 <==> v < TWO_256 / 2)
  {
    TopOf256();
    SizeFits(v);
    ReadsWritten(v, Size(v));
    hide BigEndian, FromBigEndian, Pow256, Size, AreOctets;
    var b := BigEndian(v, Size(v));
    FirstOctet(b);
    LeadingZero(b);
    SizeBound(v);
    OneMoreOctet(b);
  }

  lemma TopOf256()
    ensures TWO_256 == 256 * Pow256(31) && Pow256(31) > 0
  {
    Pow256Of32();
    assert Pow256(32) == 256 * Pow256(31);
  }

  lemma OneMoreOctet(b: Octets)
    requires AreOctets(b)
    ensures AreOctets([0] + b)
  {}

  lemma SizeBound(v: nat)
    requires v < TWO_256
    ensures Size(v) <= 32 && (Size(v) == 32 <==> v >= Pow256(31))
  {
    Pow256Of32();
    SizeFits(v);
    if Size(v) > 32 {
      PowMonotone(32, Size(v) - 1);
    } else if Size(v) < 32 {
      PowMonotone(Size(v), 31);
    }
  }

  lemma {:induction false} PowMonotone(a: nat, b: nat)
    requires a <= b
    ensures Pow256(a) <= Pow256(b)
  {
    if a < b { PowMonotone(a, b - 1); PowPositive(b - 1); }
  }

  /** Content octets as a two's complement number (X.690, section 8.3.3). */
  function Signed(c: Octets): int {
    if c != [] && c[0] >= 0x80 then FromBigEndian(c) - Pow256(|c|) else FromBigEndian(c)
  }

  lemma {:induction false} LeadingOctet(o: int, c: Octets)
    ensures FromBigEndian([o] + c) == o * Pow256(|c|) + FromBigEndian(c)
  {
    if c == [] {
      assert ([o] + c)[..0] == [];
    } else {
      var rest := c[..|c| - 1];
      assert ([o] + c)[..|c|] == [o] + rest;
      LeadingOctet(o, rest);
      assert FromBigEndian([o] + c) == (o * Pow256(|rest|) + FromBigEndian(rest)) * 256 + c[|c| - 1];
      assert o * Pow256(|c|) == o * Pow256(|rest|) * 256;
    }
  }

  /** Minimal is: no octet could be dropped without changing that number. */
  lemma MinimalIsShortest(c: Octets)
    requires AreOctets(c) && c != []
    ensures Minimal(c) <==> |c| == 1 || Signed(c[1..]) != Signed(c)
  {
    if |c| > 1 {
      var rest := c[1..];
      assert c == [c[0]] + rest;
      LeadingOctet(c[0], rest);
      BothAreOctets([c[0]], rest);
      WritesRead(rest);
      hide FromBigEndian;
      assert Pow256(|c|) == 256 * Pow256(|rest|);
      DroppedOctet(c[0], rest[0], FromBigEndian(rest), Pow256(|rest|));
    }
  }

  lemma DroppedOctet(o: int, next: int, v: int, p: int)
    requires 0 <= o < 256 && 0 <= v < p
    ensures var whole := o * p + v - (if o >= 0x80 then 256 * p else 0);
            var dropped := v - (if next >= 0x80 then p else 0);
            whole == dropped <==> (o == 0 && next < 0x80) || (o == 0xFF && next >= 0x80)
  {
    var k := o - (if o >= 0x80 then 256 else 0) + (if next >= 0x80 then 1 else 0);
    assert k * p == o * p - (if o >= 0x80 then 256 * p else 0) + (if next >= 0x80 then p else 0);
    MulGrows(k, p);
  }

  // ------------------------------------------------------------ DER lengths

  /** A definite length in its shortest form (X.690, sections 8.1.3 and 10.1). */
  function LengthOctets(n: nat): Octets {
    if n < 0x80 then [n] else [0x80 + Size(n)] + BigEndian(n, Size(n))
  }

  /** A length and the octets after it; the indefinite form, the reserved 0xFF and a length that has a
      shorter form are refused. */
  function ReadLength(b: Octets): Option<(nat, Octets)> {
    if b == [] || b[0] < 0 then None
    else if b[0] < 0x80 then Some((b[0], b[1..]))
    else
      var k := b[0] - 0x80;
      if k == 0 || k >= 0x7F || k >= |b| || b[1] == 0 then None
      else
        var n := FromBigEndian(b[1..1 + k]);
        if n < 0x80 then None else Some((n, b[1 + k..]))
  }

  lemma LengthReadsBack(n: nat, rest: Octets)
    requires Size(n) < 0x7F
    ensures ReadLength(LengthOctets(n) + rest) == Some((n, rest))
  {
    var b := LengthOctets(n) + rest;
    if n < 0x80 {
      assert b[1..] == rest;
    } else {
      LongLength(n);
      hide BigEndian, FromBigEndian, Size;
      var v := BigEndian(n, Size(n));
      assert b[1..1 + |v|] == v && b[1 + |v|..] == rest && b[1] == v[0];
    }
  }

  lemma LongLength(n: nat)
    requires n >= 0x80
    ensures var v := BigEndian(n, Size(n));
            |v| == Size(n) > 0 && v[0] != 0 && FromBigEndian(v) == n
  {
    SizeFits(n);
    ReadsWritten(n, Size(n));
    assert Pow256(0) == 1;
    hide BigEndian, FromBigEndian, Pow256, Size;
    FirstOctet(BigEndian(n, Size(n)));
  }

  lemma LengthExact(b: Octets)
    requires AreOctets(b) && ReadLength(b).Some?
    ensures var (n, rest) := ReadLength(b).value; b == LengthOctets(n) + rest && Size(n) < 0x7F
  {
    hide FromBigEndian, BigEndian, Pow256, AreOctets;
    if b[0] < 0x80 {
      assert b == [b[0]] + b[1..];
    } else {
      hide Size;
      var k := b[0] - 0x80;
      var v := b[1..1 + k];
      assert b == [b[0]] + (v + b[1 + k..]) && v[0] == b[1];
      BothAreOctets([b[0]], v + b[1 + k..]);
      BothAreOctets(v, b[1 + k..]);
      SizeOfRead(v);
    }
  }

  // ------------------------------------------------------------ DER signatures

  function Integer(c: Octets): Octets {
    [0x02] + LengthOctets(|c|) + c
  }

  function Sequence(r: Octets, s: Octets): Octets {
    var body := Integer(r) + Integer(s);
    [0x30] + LengthOctets(|body|) + body
  }

  function SerializeDer(sig: Signature): Octets {
    Sequence(Content(sig.r), Content(sig.s))
  }

  /** One INTEGER: its content and the octets after it. */
  function ReadInteger(b: Octets): Option<(Octets, Octets)> {
    if b == [] || b[0] != 0x02 then None
    else
      match ReadLength(b[1..])
      case None => None
      case Some((n, rest)) =>
        if n > |rest| || !Minimal(rest[..n]) then None else Some((rest[..n], rest[n..]))
  }

  /** The two INTEGERs of a SEQUENCE that has nothing else in it or after it. */
  function ReadBody(body: Octets): Option<(Octets, Octets)> {
    match ReadInteger(body)
    case None => None
    case Some((r, rest)) =>
      match ReadInteger(rest)
      case None => None
      case Some((s, tail)) => if tail == [] then Some((r, s)) else None
  }

  function Contents(b: Octets): Option<(Octets, Octets)> {
    if b == [] || b[0] != 0x30 then None
    else
      match ReadLength(b[1..])
      case None => None
      case Some((n, body)) => if n != |body| then None else ReadBody(body)
  }

  /** The parser is lenient in value: a top bit is read as part of the number, and a number that is
      not below n becomes zero. */
  function Value(c: Octets): Scalar {
    var v := FromBigEndian(c);
    if 0 <= v < C.n then v else 0
  }

  function ParseDer(b: Octets): Option<Signature> {
    match Contents(b)
    case None => None
    case Some((r, s)) => Some(Signature(Value(r), Value(s)))
  }

  lemma IntegerReadsBack(c: Octets, rest: Octets)
    requires Minimal(c) && Size(|c|) < 0x7F
    ensures ReadInteger(Integer(c) + rest) == Some((c, rest))
  {
    hide ReadLength, LengthOctets, Minimal, Size;
    var b := Integer(c) + rest;
    LengthReadsBack(|c|, c + rest);
    assert b[1..] == LengthOctets(|c|) + (c + rest);
    assert (c + rest)[..|c|] == c && (c + rest)[|c|..] == rest;
  }

  lemma ReadIntegerExact(b: Octets)
    requires AreOctets(b) && ReadInteger(b).Some?
    ensures var (c, rest) := ReadInteger(b).value;
            Minimal(c) && b == Integer(c) + rest && AreOctets(c) && AreOctets(rest)
  {
    hide Minimal, LengthOctets, ReadLength;
    LengthExact(b[1..]);
    var (n, after) := ReadLength(b[1..]).value;
    TailIsOctets(b[1..], LengthOctets(n), after);
    assert b == [b[0]] + b[1..];
    assert after == after[..n] + after[n..];
  }

  lemma TailIsOctets(b: Octets, head: Octets, tail: Octets)
    requires AreOctets(b) && b == head + tail
    ensures AreOctets(tail)
  {
    forall i | 0 <= i < |tail|
      ensures tail[i] == b[|head| + i]
    {}
  }

  lemma BodyExact(body: Octets)
    requires AreOctets(body) && ReadBody(body).Some?
    ensures var (r, s) := ReadBody(body).value;
            Minimal(r) && Minimal(s) && AreOctets(r) && AreOctets(s) && body == Integer(r) + Integer(s)
  {
    hide Minimal, Integer, ReadInteger;
    ReadIntegerExact(body);
    ReadIntegerExact(ReadInteger(body).value.1);
  }

  /** Whatever the forms of its lengths, what is read is what there is. */
  lemma ContentsExact(b: Octets)
    requires AreOctets(b) && Contents(b).Some?
    ensures var (r, s) := Contents(b).value;
            Minimal(r) && Minimal(s) && AreOctets(r) && AreOctets(s) && b == Sequence(r, s)
  {
    hide Minimal, Integer, LengthOctets, ReadLength, ReadBody;
    LengthExact(b[1..]);
    var (n, body) := ReadLength(b[1..]).value;
    TailIsOctets(b[1..], LengthOctets(n), body);
    BodyExact(body);
    assert b == [b[0]] + b[1..];
  }

  lemma ContentsReadBack(r: Octets, s: Octets)
    requires Minimal(r) && Minimal(s) && |r| + |s| <= 66
    ensures |Integer(r)| == 2 + |r| && |Integer(s)| == 2 + |s| && |Sequence(r, s)| == 6 + |r| + |s|
    ensures Contents(Sequence(r, s)) == Some((r, s))
  {
    hide ReadLength, ReadInteger;
    var body := Integer(r) + Integer(s);
    LengthReadsBack(|body|, body);
    assert Sequence(r, s)[1..] == LengthOctets(|body|) + body;
    IntegerReadsBack(r, Integer(s));
    IntegerReadsBack(s, []);
    assert Integer(s) + [] == Integer(s);
  }

  /** What is accepted is what is a SEQUENCE of two minimal INTEGERs, and what it says: each number as it
      stands, a top bit being part of it, but zero where it is not below n. */
  lemma ParsesExactly(r: Octets, s: Octets)
    requires Minimal(r) && Minimal(s) && Size(|r|) < 0x7F && Size(|s|) < 0x7F
    requires Size(|Integer(r) + Integer(s)|) < 0x7F && AreOctets(r) && AreOctets(s)
    ensures ParseDer(Sequence(r, s)).Some?
    ensures var sig := ParseDer(Sequence(r, s)).value;
            && sig.r == (if FromBigEndian(r) < C.n then FromBigEndian(r) else 0)
            && sig.s == (if FromBigEndian(s) < C.n then FromBigEndian(s) else 0)
  {
    WritesRead(r);
    WritesRead(s);
    hide FromBigEndian, AreOctets, Minimal, Contents, Sequence, Integer, Size;
    SequenceReadsBack(r, s);
  }

  lemma SequenceReadsBack(r: Octets, s: Octets)
    requires Minimal(r) && Minimal(s) && Size(|r|) < 0x7F && Size(|s|) < 0x7F
    requires Size(|Integer(r) + Integer(s)|) < 0x7F
    ensures Contents(Sequence(r, s)) == Some((r, s))
  {
    hide ReadLength, ReadInteger, LengthOctets, Integer, Minimal, Size;
    var body := Integer(r) + Integer(s);
    LengthReadsBack(|body|, body);
    assert Sequence(r, s)[1..] == LengthOctets(|body|) + body;
    IntegerReadsBack(r, Integer(s));
    IntegerReadsBack(s, []);
    assert Integer(s) + [] == Integer(s);
  }

  /** Octets and no names: one encoding written, ... */
  lemma KnownWritten()
    ensures SerializeDer(Signature(1, 2)) == [0x30, 0x06, 0x02, 0x01, 0x01, 0x02, 0x01, 0x02]
  {
    assert Content(1) == [1] && Content(2) == [2];
    hide Content, BigEndian, Size;
    assert Integer([1]) == [0x02, 0x01, 0x01] && Integer([2]) == [0x02, 0x01, 0x02];
  }

  /** ... one read, ... */
  lemma KnownRead()
    ensures Contents([0x30, 0x07, 0x02, 0x01, 0x66, 0x02, 0x02, 0x00, 0xEE]) == Some(([0x66], [0x00, 0xEE]))
  {
    hide BigEndian, Size, FromBigEndian;
    assert Integer([0x66]) == [0x02, 0x01, 0x66] && Integer([0x00, 0xEE]) == [0x02, 0x02, 0x00, 0xEE];
    hide ReadLength, ReadInteger, ReadBody, Contents, Integer, Minimal;
    assert Sequence([0x66], [0x00, 0xEE]) == [0x30, 0x07, 0x02, 0x01, 0x66, 0x02, 0x02, 0x00, 0xEE];
    SmallSizes();
    SequenceReadsBack([0x66], [0x00, 0xEE]);
  }

  lemma SmallSizes()
    ensures Size(1) == Size(2) == Size(7) == 1 && Minimal([0x66]) && Minimal([0x00, 0xEE])
  {}

  /** ... and one refused for the octet after it. */
  lemma KnownRefused()
    ensures ParseDer([0x30, 0x07, 0x02, 0x01, 0x66, 0x02, 0x02, 0x00, 0xEE, 0x00]).None?
  {
    hide FromBigEndian, ReadBody;
    var b := [0x30, 0x07, 0x02, 0x01, 0x66, 0x02, 0x02, 0x00, 0xEE, 0x00];
    assert b[1..][0] == 0x07 && |b[1..][1..]| == 8;
  }

  /** parse_der(serialize_der(sig)) == sig, and the lengths: 6 + lenR + lenS, at most 72, and at most
      70 where both tops are clear. */
  lemma DerRoundTrip(sig: Signature)
    ensures ParseDer(SerializeDer(sig)) == Some(sig)
    ensures |SerializeDer(sig)| == 6 + |Content(sig.r)| + |Content(sig.s)| <= 72
    ensures sig.r < TWO_256 / 2 && sig.s < TWO_256 / 2 ==> |SerializeDer(sig)| <= 70
  {
    hide Contents, Content, Sequence, Minimal, AreOctets, FromBigEndian;
    ContentReads(sig.r);
    ContentReads(sig.s);
    ContentsReadBack(Content(sig.r), Content(sig.s));
  }

  predicate Plain(c: Octets) {
    c != [] && c[0] < 0x80 && FromBigEndian(c) < C.n
  }

  lemma PlainIsWhatIsWritten(c: Octets)
    requires AreOctets(c) && Minimal(c)
    ensures Content(Value(c)) == c <==> Plain(c)
  {
    WritesRead(c);
    if Plain(c) { ContentExact(c); }
    ContentReads(Value(c));
  }

  /** The octets the parser accepts without loss: serializing gives them back exactly when neither
      integer is negative or at least n. */
  lemma DerCanonical(b: Octets)
    requires AreOctets(b) && Contents(b).Some?
    ensures var (r, s) := Contents(b).value;
            SerializeDer(ParseDer(b).value) == b <==> Plain(r) && Plain(s)
  {
    hide Content, Plain, Value, Minimal, AreOctets, Sequence, SerializeDer;
    ContentsExact(b);
    var (r, s) := Contents(b).value;
    PlainIsWhatIsWritten(r);
    PlainIsWhatIsWritten(s);
    SameContents(b, r, s, Value(r), Value(s));
  }

  lemma SameContents(b: Octets, cr: Octets, cs: Octets, r: Scalar, s: Scalar)
    ensures Contents(b) == Some((cr, cs)) && b == Sequence(cr, cs) ==>
              (SerializeDer(Signature(r, s)) == b <==> Content(r) == cr && Content(s) == cs)
  {
    hide Contents, Content, Sequence;
    WrittenOnce(r, s, b);
  }

  lemma WrittenOnce(r: Scalar, s: Scalar, b: Octets)
    ensures SerializeDer(Signature(r, s)) == b ==> Contents(b) == Some((Content(r), Content(s)))
  {
    hide Contents, Content, Sequence, Minimal, AreOctets, FromBigEndian;
    ContentReads(r);
    ContentReads(s);
    ContentsReadBack(Content(r), Content(s));
  }

  /** `to_compact(to_der(c))` is c, for every compact signature that parses. */
  lemma CompactThroughDer(c: Octets)
    requires AreOctets(c) && ParseCompact(c).Some?
    ensures ParseDer(SerializeDer(ParseCompact(c).value)).Some?
    ensures SerializeCompact(ParseDer(SerializeDer(ParseCompact(c).value)).value) == c
  {
    CompactRoundTrip(ParseCompact(c).value, c);
    DerRoundTrip(ParseCompact(c).value);
  }

  /** Low r is not a length: on a curve whose order passes 2^255, a high r with an s of 31 octets
      encodes to 70 octets too. */
  lemma SeventyOctetsWithoutLowR()
    requires C.n > TWO_256 / 2
    ensures exists sig: Signature :: |SerializeDer(sig)| == 70 && !IsLowR(sig)
  {
    var sig := Signature(TWO_256 / 2, TWO_256 / 1024);
    DerRoundTrip(sig);
    LowRIsTheTopBit(sig);
    ContentReads(sig.r);
    ContentReads(sig.s);
    ContentIs31(sig.s);
    assert |SerializeDer(sig)| == 70;
  }

  lemma ContentIs31(v: nat)
    requires v == TWO_256 / 1024
    ensures |Content(v)| == 31
  {
    Pow256Of32();
    assert Pow256(32) == 256 * Pow256(31) && Pow256(31) == 256 * Pow256(30);
    SizeIs(v, 31);
    ReadsWritten(v, 31);
    FirstOctet(BigEndian(v, 31));
  }
}
