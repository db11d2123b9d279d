/** The simulator's ECMath: point and scalar byte formats, and the arithmetic on buffers. */
module ECMath {
  import opened Modular
  import opened Bytes
  import opened Curve
  import opened RawCurve
  import opened Options
  import opened Versions

  /** The static curve selection: field modulus p, scalar order r, coefficient b. */
  datatype Params = Params(version: Version, p: int, r: int, b: int) {
    function G1Bytes(): nat { if version.BN254? then 65 else 48 }
  }

  const FR_BYTES: nat := 32

  const BN254_PARAMS := Params(BN254,
    0x30644e72e131a029b85045b68181585d97816a916871ca8d3c208c16d87cfd47,
    0x30644e72e131a029b85045b68181585d2833e84879b9709143e1f593f0000001, 3)
  const BLS381_PARAMS := Params(BLS381,
    0x1a0111ea397fe69a4b1ba7b6434bacd764774b84f38512bf6730d2a0f6b0f6241eabfffeb153ffffb9feffffffffaaab,
    0x73eda753299d7d483339d80809a1d80553bda402fffe5bfeffffffff00000001, 4)

  /** What the byte formats need of the parameters: a prime p that leaves room for the three
      flag bits, p = 3 (mod 4) for the square root, and scalars of at most 32 bytes. */
  ghost predicate Sound(c: Params) {
    && OddPrime(c.p)
    && 0 < c.b < c.p
    && 0 < c.r <= Pow(256, 32)
    && (c.version.BN254? ==> c.p <= Pow(256, 32))
    && (c.version.BLS381? ==> c.p % 4 == 3 && c.p <= 32 * Pow(256, 47))
  }

  /** Both shipped curves are sound, primality of the two moduli being taken on trust. */
  lemma ShippedCurvesSound()
    ensures Prime(BN254_PARAMS.p) ==> Sound(BN254_PARAMS)
    ensures Prime(BLS381_PARAMS.p) ==> Sound(BLS381_PARAMS)
  {
    Widths();
    PowAdd(256, 32, 15);
  }

  /** The constants are the members of their families: Barreto-Naehrig at u, BLS with embedding degree
      twelve at -z. */
  lemma ShippedFamilies()
    ensures var u := 4965661367192848881;
            var v := u * u;
            && BN254_PARAMS.p == 36 * (v * v) + 36 * (v * u) + 24 * v + 6 * u + 1
            && BN254_PARAMS.r == 36 * (v * v) + 36 * (v * u) + 18 * v + 6 * u + 1
            && BN254_PARAMS.b == 3
    ensures var z := 0xd201_0000_0001_0000;
            var v := z * z;
            && BLS381_PARAMS.r == v * v - v + 1
            && 3 * (BLS381_PARAMS.p + z) == (z + 1) * (z + 1) * BLS381_PARAMS.r
            && BLS381_PARAMS.b == 4
  {
  }

  lemma Widths()
    ensures Pow(256, 15) == 0x1_00000000_00000000_00000000_000000
    ensures Pow(256, 16) == 0x1_00000000_00000000_00000000_00000000
    ensures Pow(256, 32) == Pow(256, 16) * Pow(256, 16)
  {
    assert Pow(256, 4) == 0x1_00000000;
    PowAdd(256, 4, 4);
    PowAdd(256, 8, 4);
    assert Pow(256, 3) == 0x1_000000;
    PowAdd(256, 12, 3);
    PowAdd(256, 12, 4);
    PowAdd(256, 16, 16);
  }

  // ----- Reading -----

  function DecodeUncompressed(s: Bytes): Point
    requires |s| == 65
  {
    var x, y := FromBE(s[1..33]), FromBE(s[33..65]);
    if x == 0 && y == 0 then Infinity else Affine(x, y)
  }

  predicate Bit(b: Byte, mask: int)
    requires mask > 0
  {
    b / mask % 2 == 1
  }

  function RightHandSide(x: int, c: Params): int
    requires c.p > 0
  {
    (Pow(x, 3) % c.p + c.b) % c.p
  }

  /** The square root that the sign flag selects; None when v is not a square. */
  function SelectRoot(v: int, large: bool, p: int): Option<int>
    requires p > 0
  {
    var y := Pow(v, (p + 1) / 4) % p;
    if (y * y) % p != v then None
    else Some(if large != (y > p / 2) then p - y else y)
  }

  function DecodeCompressed(s: Bytes, c: Params): Point
    requires |s| == 48 && c.p > 0
  {
    if Bit(s[0], 0x40) then Infinity else
    var x := FromBE(s[0 := s[0] % 0x20]);
    var root := SelectRoot(RightHandSide(x, c), Bit(s[0], 0x20), c.p);
    if root.None? then Infinity else Affine(x, root.value)
  }

  function DecodePoint(s: Bytes, c: Params): Point
    requires |s| == c.G1Bytes() && c.p > 0
  {
    if c.version.BN254? then DecodeUncompressed(s) else DecodeCompressed(s, c)
  }

  /** Coordinates that the format holds, reduced or not. */
  ghost predicate Fits(pt: Point, c: Params) {
    pt.Affine? ==>
      && 0 <= pt.x && 0 <= pt.y
      && (c.version.BN254? ==> pt.x < Pow(256, 32) && pt.y < Pow(256, 32))
      && (c.version.BLS381? ==> pt.x < 32 * Pow(256, 47) && pt.y <= c.p)
  }

  /** Whatever is read fits; a compressed ordinate is at most p. */
  lemma DecodeFits(s: Bytes, c: Params)
    requires Sound(c) && |s| == c.G1Bytes()
    ensures Fits(DecodePoint(s, c), c)
  {
    if c.version.BN254? {
      ToFromBE(s[1..33]);
      ToFromBE(s[33..65]);
    } else {
      var t := s[0 := s[0] % 0x20];
      ToFromBE(t);
      FirstByte(FromBE(t), 48);
      ProductBound(FromBE(t), Pow(256, 47));
    }
  }

  lemma ProductBound(a: nat, m: int)
    requires m > 0 && a / m < 32
    ensures a < 32 * m
  {
    var t, r := DivMod(a, m);
    MulAway(32 - t, m);
    assert (32 - t) * m == 32 * m - t * m;
  }

  // ----- Writing: the bytes each writer leaves, then the writers themselves -----

  function Flags(y: int, p: int): Byte {
    if y > p / 2 then 0xA0 else 0x80
  }

  function EncodePoint(pt: Point, c: Params): (s: Bytes)
    requires Sound(c) && Fits(pt, c)
    ensures |s| == c.G1Bytes()
  {
    match pt
    case Infinity =>
      if c.version.BN254? then [0x04] + Zeros(64) else [0xC0] + Zeros(47)
    case Affine(x, y) =>
      if c.version.BN254? then [0x04] + ToBE(x, 32) + ToBE(y, 32)
      else
        var s := ToBE(x, 48);
        TopByteFree(x, c);
        s[0 := s[0] + Flags(y, c.p)]
  }

  lemma TopByteFree(x: nat, c: Params)
    requires Sound(c) && c.version.BLS381? && x < 32 * Pow(256, 47)
    ensures x < Pow(256, 48) && ToBE(x, 48)[0] < 32
  {
    assert Pow(256, 48) == 256 * Pow(256, 47);
    FirstByte(x, 48);
    QuotientBound(x, 32, Pow(256, 47));
  }

  function OrBit(b: Byte, mask: int): (r: int)
    requires mask > 0
  {
    if Bit(b, mask) then b else b + mask
  }

  lemma OrFlags(top: Byte)
    requires top < 32
    ensures OrBit(top, 0x80) == top + 0x80 < 256 && OrBit(top + 0x80, 0x20) == top + 0xA0
  {
  }

  lemma SpliceHead(s: Bytes, off: nat, t: Bytes, b: Byte)
    requires off + |t| <= |s| && t != []
    ensures Splice(s, off, t)[off := b] == Splice(s, off, t[0 := b])
  {
  }

  method WriteIdentity(c: Params, buf: array<Byte>, off: nat)
    requires Sound(c) && off + c.G1Bytes() <= buf.Length
    modifies buf
    ensures buf[..] == Splice(old(buf[..]), off, EncodePoint(Infinity, c))
  {
    ghost var before := buf[..];
    ZeroFill(buf, off, c.G1Bytes());
    buf[off] := if c.version.BN254? then 0x04 else 0xC0;
    assert buf[..] == Splice(before, off, Zeros(c.G1Bytes()))[off := buf[off]];
  }

  method WritePointCompressed(c: Params, buf: array<Byte>, off: nat, x: nat, y: nat)
    requires Sound(c) && c.version.BLS381? && Fits(Affine(x, y), c) && off + 48 <= buf.Length
    modifies buf
    ensures buf[..] == Splice(old(buf[..]), off, EncodePoint(Affine(x, y), c))
  {
    ghost var before := buf[..];
    WriteCoord(buf, off, x, 48);
    TopByteFree(x, c);
    ghost var top := ToBE(x, 48)[0];
    OrFlags(top);
    assert buf[off] == top;
    buf[off] := OrBit(buf[off], 0x80);
    if y > c.p / 2 {
      buf[off] := OrBit(buf[off], 0x20);
    }
    SpliceHead(before, off, ToBE(x, 48), buf[off]);
    assert buf[..] == Splice(before, off, ToBE(x, 48))[off := buf[off]];
  }

  method WritePointUncompressed(c: Params, buf: array<Byte>, off: nat, x: nat, y: nat)
    requires Sound(c) && c.version.BN254? && Fits(Affine(x, y), c) && off + 65 <= buf.Length
    modifies buf
    ensures buf[..] == Splice(old(buf[..]), off, EncodePoint(Affine(x, y), c))
  {
    ghost var before := buf[..];
    CopyInto([0x04], buf, off);
    WriteCoord(buf, off + 1, x, 32);
    WriteCoord(buf, off + 33, y, 32);
    ThreeSplices(before, off, [0x04], ToBE(x, 32), ToBE(y, 32));
  }

  lemma ThreeSplices(s: Bytes, off: nat, a: Bytes, b: Bytes, d: Bytes)
    requires off + |a| + |b| + |d| <= |s|
    ensures Splice(Splice(Splice(s, off, a), off + |a|, b), off + |a| + |b|, d) == Splice(s, off, a + b + d)
  {
  }

  method WritePoint(c: Params, buf: array<Byte>, off: nat, x: nat, y: nat)
    requires Sound(c) && Fits(Affine(x, y), c) && off + c.G1Bytes() <= buf.Length
    modifies buf
    ensures buf[..] == Splice(old(buf[..]), off, EncodePoint(Affine(x, y), c))
  {
    if c.version.BN254? {
      WritePointUncompressed(c, buf, off, x, y);
    } else {
      WritePointCompressed(c, buf, off, x, y);
    }
  }

  method WriteResult(c: Params, buf: array<Byte>, off: nat, pt: Point)
    requires Sound(c) && Fits(pt, c) && off + c.G1Bytes() <= buf.Length
    modifies buf
    ensures buf[..] == Splice(old(buf[..]), off, EncodePoint(pt, c))
  {
    match pt
    case Infinity => WriteIdentity(c, buf, off);
    case Affine(x, y) => WritePoint(c, buf, off, x, y);
  }

  // ----- Round trips -----

  lemma UncompressedRoundTrip(pt: Point, c: Params)
    requires Sound(c) && c.version.BN254? && OnCurve(pt, c.b, c.p)
    ensures DecodePoint(EncodePoint(pt, c), c) == pt
  {
    var s := EncodePoint(pt, c);
    if pt.Affine? {
      Fields([0x04], ToBE(pt.x, 32), ToBE(pt.y, 32));
      FitsBE(pt.x, 32);
      FitsBE(pt.y, 32);
      NotOrigin(pt.x, pt.y, c);
    } else {
      ZeroValue(32);
      assert Zeros(64) == Zeros(32) + Zeros(32);
      Fields([0x04], Zeros(32), Zeros(32));
      assert s == [0x04] + Zeros(32) + Zeros(32);
    }
  }

  lemma Fields(h: Bytes, s: Bytes, t: Bytes)
    ensures (h + s + t)[|h|..|h| + |s|] == s
    ensures (h + s + t)[|h| + |s|..|h| + |s| + |t|] == t
  {
  }

  /** (0, 0), which encodes the identity, is not on the curve. */
  lemma NotOrigin(x: int, y: int, c: Params)
    requires Sound(c) && OnCurve(Affine(x, y), c.b, c.p)
    ensures x != 0 || y != 0
  {
    ModUnique(c.b, 0, c.b, c.p);
    ModUnique(0, 0, 0, c.p);
  }

  lemma {:induction false} ZeroValue(n: nat)
    ensures FromBE(Zeros(n)) == 0
  {
    if n > 0 {
      ZeroValue(n - 1);
      assert Zeros(n)[..n - 1] == Zeros(n - 1);
    }
  }

  lemma Cube(x: int)
    ensures Pow(x, 3) == x * x * x
  {
    assert Pow(x, 1) == x * Pow(x, 0) == x;
    assert Pow(x, 2) == x * Pow(x, 1) == x * x;
    assert Pow(x, 3) == x * (x * x);
  }

  lemma CurveValue(x: int, y: int, c: Params)
    requires c.p > 0 && Cong(y * y, x * x * x + c.b, c.p)
    ensures RightHandSide(x, c) == (y * y) % c.p
  {
    Cube(x);
    CongMod(x * x * x, c.p);
    CongAdd((x * x * x) % c.p, x * x * x, c.b, c.b, c.p);
  }

  /** The sign flag recovers y from its square, for every y in the field. */
  lemma RootSelected(y: int, p: int)
    requires OddPrime(p) && p % 4 == 3 && 0 <= y < p
    ensures SelectRoot((y * y) % p, y > p / 2, p) == Some(y)
  {
    var v, e := (y * y) % p, (p + 1) / 4;
    var w := Pow(v, e) % p;
    SquareRoot(y, p);
    CongMod(y * y, p);
    PowCong(v, y * y, e, p);
    CongMod(Pow(v, e), p);
    CongMul(w, Pow(y * y, e), w, Pow(y * y, e), p);
    TwoRoots(w, y, p);
  }

  /** The flags do not collide with the top byte of a coordinate. */
  lemma FlagBits(top: Byte, y: int, p: int)
    requires top < 32
    ensures var b := top + Flags(y, p);
            b < 256 && b % 0x20 == top && !Bit(b, 0x40) && (Bit(b, 0x20) <==> y > p / 2)
  {
  }

  /** The flagged bytes give back coordinate and flags. */
  lemma FlaggedRead(x: nat, y: int, c: Params)
    requires Sound(c) && c.version.BLS381? && x < 32 * Pow(256, 47) && 0 <= y <= c.p
    ensures var s := EncodePoint(Affine(x, y), c);
            && s[0 := s[0] % 0x20] == ToBE(x, 48) && FromBE(s[0 := s[0] % 0x20]) == x
            && !Bit(s[0], 0x40) && (Bit(s[0], 0x20) <==> y > c.p / 2)
  {
    var s, t := EncodePoint(Affine(x, y), c), ToBE(x, 48);
    TopByteFree(x, c);
    FitsBE(x, 48);
    FlagBits(t[0], y, c.p);
    assert s[0 := s[0] % 0x20] == t;
  }

  lemma CompressedRoundTrip(pt: Point, c: Params)
    requires Sound(c) && c.version.BLS381? && OnCurve(pt, c.b, c.p)
    ensures DecodePoint(EncodePoint(pt, c), c) == pt
  {
    if pt.Affine? {
      FlaggedRead(pt.x, pt.y, c);
      CurveValue(pt.x, pt.y, c);
      RootSelected(pt.y, c.p);
    }
  }

  /** Every point the card holds is read back from the bytes written for it. */
  lemma PointRoundTrip(pt: Point, c: Params)
    requires Sound(c) && OnCurve(pt, c.b, c.p)
    ensures DecodePoint(EncodePoint(pt, c), c) == pt
  {
    if c.version.BN254? {
      UncompressedRoundTrip(pt, c);
    } else {
      CompressedRoundTrip(pt, c);
    }
  }

  /** Distinct points have distinct encodings. */
  lemma EncodingInjective(s: Point, t: Point, c: Params)
    requires Sound(c) && OnCurve(s, c.b, c.p) && OnCurve(t, c.b, c.p)
    ensures EncodePoint(s, c) == EncodePoint(t, c) <==> s == t
  {
    PointRoundTrip(s, c);
    PointRoundTrip(t, c);
  }

  /** An affine compressed string gives back its coordinate bytes and, on one side of p/2, its flag. */
  lemma DecodedParts(s: Bytes, c: Params)
    requires Sound(c) && c.version.BLS381? && |s| == 48 && DecodeCompressed(s, c).Affine?
    ensures var pt := DecodeCompressed(s, c);
            && 0 <= pt.x && 0 <= pt.y && !Bit(s[0], 0x40) && ToBE(pt.x, 48) == s[0 := s[0] % 0x20]
            && Cong(pt.y * pt.y, RightHandSide(pt.x, c), c.p)
            && (Bit(s[0], 0x20) <==> pt.y > c.p / 2)
  {
    var x := DecodeCompressed(s, c).x;
    ToFromBE(s[0 := s[0] % 0x20]);
    ModUnique(RightHandSide(x, c), 0, RightHandSide(x, c), c.p);
    RootSquares(RightHandSide(x, c), Bit(s[0], 0x20), c.p);
  }

  /** Conversely, a compressed string whose decoded coordinates are residues is the one string
      for its point: it is on the curve and writing it back restores every byte. */
  lemma CompressedReencode(s: Bytes, c: Params)
    requires Sound(c) && c.version.BLS381? && |s| == 48 && Bit(s[0], 0x80)
    requires var pt := DecodeCompressed(s, c); pt.Affine? && Canonical(pt, c.p)
    ensures var pt := DecodeCompressed(s, c); OnCurve(pt, c.b, c.p) && EncodePoint(pt, c) == s
  {
    var pt := DecodeCompressed(s, c);
    DecodedParts(s, c);
    CurveValueOf(pt.x, pt.y, c);
    Reassembled(s, pt.x, pt.y, c);
  }

  /** And for every 48-byte string: it is what is written for what it is read as if and only if it
      carries the compression flag and is read as a point, reduced or not, or is the one string for
      the identity. */
  lemma CompressedReencodeIff(s: Bytes, c: Params)
    requires Sound(c) && c.version.BLS381? && |s| == 48
    ensures Fits(DecodePoint(s, c), c)
    ensures EncodePoint(DecodePoint(s, c), c) == s
       <==> Bit(s[0], 0x80) && (DecodePoint(s, c).Affine? || s == [0xC0] + Zeros(47))
  {
    var pt := DecodePoint(s, c);
    DecodeFits(s, c);
    if pt.Affine? {
      DecodedParts(s, c);
      if Bit(s[0], 0x80) {
        Reassembled(s, pt.x, pt.y, c);
      } else {
        WrittenFlag(pt.x, pt.y, c);
      }
    } else {
      assert EncodePoint(pt, c) == [0xC0] + Zeros(47);
    }
  }

  lemma WrittenFlag(x: nat, y: nat, c: Params)
    requires Sound(c) && c.version.BLS381? && Fits(Affine(x, y), c)
    ensures Bit(EncodePoint(Affine(x, y), c)[0], 0x80)
  {
    TopByteFree(x, c);
    FlaggedRead(x, y, c);
  }

  /** Of the 65-byte form only the leading byte is not read back. */
  lemma UncompressedReencodeIff(s: Bytes, c: Params)
    requires Sound(c) && c.version.BN254? && |s| == 65
    ensures Fits(DecodePoint(s, c), c)
    ensures EncodePoint(DecodePoint(s, c), c) == s <==> s[0] == 0x04
  {
    var x, y := s[1..33], s[33..65];
    DecodeFits(s, c);
    ToFromBE(x);
    ToFromBE(y);
    assert s == [s[0]] + x + y;
    if DecodePoint(s, c).Infinity? {
      HighZeros(0, 32, 0);
      assert [0x04] + Zeros(64) == [0x04] + Zeros(32) + Zeros(32);
      assert ToBE(0, 0) == [];
    }
  }

  lemma Reassembled(s: Bytes, x: nat, y: nat, c: Params)
    requires Sound(c) && c.version.BLS381? && |s| == 48 && Bit(s[0], 0x80) && !Bit(s[0], 0x40)
    requires Fits(Affine(x, y), c) && ToBE(x, 48) == s[0 := s[0] % 0x20] && (Bit(s[0], 0x20) <==> y > c.p / 2)
    ensures EncodePoint(Affine(x, y), c) == s
  {
    SplitFlags(s[0]);
    TopByteFree(x, c);
    Reflagged(s, s[0] % 0x20, Flags(y, c.p));
  }

  lemma Reflagged(s: Bytes, top: Byte, flags: Byte)
    requires s != [] && s[0] == top + flags
    ensures s[0 := top][0 := s[0 := top][0] + flags] == s
  {
  }

  lemma SplitFlags(b: Byte)
    requires Bit(b, 0x80) && !Bit(b, 0x40)
    ensures b == b % 0x20 + if Bit(b, 0x20) then 0xA0 else 0x80
  {
  }

  lemma RootSquares(v: int, large: bool, p: int)
    requires OddPrime(p) && 0 <= v < p && SelectRoot(v, large, p).Some?
    ensures var y := SelectRoot(v, large, p).value;
            Cong(y * y, v, p) && (large <==> y > p / 2)
  {
    var w := Pow(v, (p + 1) / 4) % p;
    CongMod(w * w, p);
    NegatedRoot(w, p);
    if w > 0 { OtherSide(w, p); }
  }

  lemma NegatedRoot(w: int, p: int)
    requires p > 0
    ensures Cong((p - w) * (p - w), w * w, p)
  {
    SquareOfNegated(w, p);
    CongIntro((p - w) * (p - w), w * w, p - 2 * w, p);
  }

  lemma SquareOfNegated(w: int, p: int)
    ensures (p - w) * (p - w) == w * w + (p - 2 * w) * p
  {
  }

  lemma OtherSide(w: int, p: int)
    requires OddPrime(p) && 0 < w < p
    ensures p - w > p / 2 <==> w <= p / 2
  {
    assert p % 2 != 0;
  }

  lemma CurveValueOf(x: int, y: int, c: Params)
    requires c.p > 0 && Cong(y * y, RightHandSide(x, c), c.p)
    ensures Cong(y * y, x * x * x + c.b, c.p)
  {
    Cube(x);
    CongMod(x * x * x, c.p);
    CongAdd((x * x * x) % c.p, x * x * x, c.b, c.b, c.p);
    CongMod((x * x * x) % c.p + c.b, c.p);
  }

  // ----- Scalar multiplication -----

  function BitLength(k: nat): (n: nat)
    ensures k < Pow(2, n)
    ensures k > 0 ==> n > 0 && Pow(2, n - 1) <= k
  {
    if k == 0 then 0 else
      var n := 1 + BitLength(k / 2);
      assert Pow(2, n) == 2 * Pow(2, n - 1);
      assert k / 2 > 0 ==> Pow(2, n - 1) == 2 * Pow(2, n - 2);
      assert k == 1 ==> n == 1;
      n
  }

  function ShiftRight(k: nat, i: nat): (r: nat)
    ensures Pow(2, i) > 0
  {
    PowPositive(2, i);
    k / Pow(2, i)
  }

  lemma ShiftStep(k: nat, i: nat)
    ensures ShiftRight(k, i) / 2 == ShiftRight(k, i + 1)
  {
    var m := Pow(2, i);
    PowPositive(2, i);
    var t, r := DivMod(k, m);
    var h, b := DivMod(t, 2);
    assert k == h * (2 * m) + (b * m + r) by {
      assert t * m == h * 2 * m + b * m;
      assert h * 2 * m == h * (2 * m);
    }
    assert b * m + r < 2 * m by {
      if b == 1 { assert b * m == m; } else { assert b * m == 0; }
    }
    ModUnique(k, h, b * m + r, 2 * m);
  }

  function ReadScalar(buf: Bytes, off: nat): nat
    requires off + FR_BYTES <= |buf|
  {
    FromBE(buf[off..off + FR_BYTES])
  }

  function ReadPoint(c: Params, buf: Bytes, off: nat): Point
    requires off + c.G1Bytes() <= |buf| && c.p > 0
  {
    DecodePoint(buf[off..off + c.G1Bytes()], c)
  }

  /** The point that ecPointMul computes from the two operands it reads; None if it throws. */
  ghost function Product(c: Params, point: Bytes, pointOff: nat, scalar: Bytes, scalarOff: nat): (r: Option<Point>)
    requires Sound(c) && pointOff + c.G1Bytes() <= |point| && scalarOff + FR_BYTES <= |scalar|
    ensures r.Some? ==> Fits(r.value, c)
  {
    var pt, k := ReadPoint(c, point, pointOff), ReadScalar(scalar, scalarOff);
    DecodeFits(point[pointOff..pointOff + c.G1Bytes()], c);
    LadderReduced(k, pt, c.p);
    TryLadder(k, pt, c.p)
  }

  /** The point that ecPointAdd computes. */
  ghost function SumOf(s: Point, t: Point, c: Params): (r: Option<Point>)
    requires Sound(c) && Fits(s, c) && Fits(t, c)
    ensures r.Some? ==> Fits(r.value, c)
  {
    if s.Affine? && t.Affine? then AddOutcome(s, t, c.p); TrySum(s, t, c.p) else TrySum(s, t, c.p)
  }

  /** The loop of ecPointMul: Infinity (null) stands both for "not started" and for a
      partial sum that has reached the identity. */
  method DoubleAndAdd(k: nat, pt: Point, p: int) returns (result: Option<Point>)
    requires OddPrime(p) && pt.Affine?
    ensures result == TryLadder(k, pt, p)
  {
    var r := Infinity;
    var n := BitLength(k);
    TopShift(k, n);
    for i := n downto 0
      invariant Some(r) == TryLadder(ShiftRight(k, i), pt, p)
    {
      ShiftStep(k, i);
      ThrowEndsLadder(k, i, pt, p);
      if r != Infinity {
        var doubled := TryDouble(r.x, r.y, p);
        if doubled.None? { return None; }
        r := doubled.value;
      }
      if ShiftRight(k, i) % 2 == 1 {
        if r == Infinity {
          r := pt;
        } else {
          var added := TryAdd(r.x, r.y, pt.x, pt.y, p);
          if added.None? { return None; }
          r := added.value;
        }
      }
    }
    assert ShiftRight(k, 0) == k;
    return Some(r);
  }

  /** If a prefix of the bits throws, so does the whole. */
  lemma {:induction false} ThrowEndsLadder(k: nat, i: nat, pt: Point, p: int)
    requires OddPrime(p)
    ensures TryLadder(ShiftRight(k, i), pt, p).None? ==> TryLadder(k, pt, p).None?
  {
    if i == 0 {
      assert ShiftRight(k, 0) == k;
    } else {
      ThrowEndsLadder(k, i - 1, pt, p);
      ShiftStep(k, i - 1);
    }
  }

  method EcPointMul(c: Params, pointBuf: array<Byte>, pointOff: nat,
                    scalarBuf: array<Byte>, scalarOff: nat, outBuf: array<Byte>, outOff: nat) returns (ok: bool)
    requires Sound(c)
    requires pointOff + c.G1Bytes() <= pointBuf.Length && scalarOff + FR_BYTES <= scalarBuf.Length
    requires outOff + c.G1Bytes() <= outBuf.Length
    modifies outBuf
    ensures var r := old(Product(c, pointBuf[..], pointOff, scalarBuf[..], scalarOff));
            && ok == r.Some?
            && outBuf[..] == if ok then Splice(old(outBuf[..]), outOff, EncodePoint(r.value, c)) else old(outBuf[..])
  {
    var pt := ReadPoint(c, pointBuf[..], pointOff);
    var k := ReadScalar(scalarBuf[..], scalarOff);
    if k == 0 || pt == Infinity {
      WriteIdentity(c, outBuf, outOff);
      return true;
    }
    ghost var r := Product(c, pointBuf[..], pointOff, scalarBuf[..], scalarOff);
    var result := DoubleAndAdd(k, pt, c.p);
    if result.None? { return false; }
    WriteResult(c, outBuf, outOff, result.value);
    return true;
  }

  lemma TopShift(k: nat, n: nat)
    requires k < Pow(2, n)
    ensures ShiftRight(k, n) == 0
  {
    ModUnique(k, 0, k, Pow(2, n));
  }

  method EcPointAdd(c: Params, aBuf: array<Byte>, aOff: nat, bBuf: array<Byte>, bOff: nat,
                    outBuf: array<Byte>, outOff: nat) returns (ok: bool)
    requires Sound(c)
    requires aOff + c.G1Bytes() <= aBuf.Length && bOff + c.G1Bytes() <= bBuf.Length
    requires outOff + c.G1Bytes() <= outBuf.Length
    modifies outBuf
    ensures var ptA, ptB := old(ReadPoint(c, aBuf[..], aOff)), old(ReadPoint(c, bBuf[..], bOff));
            && Fits(ptA, c) && Fits(ptB, c)
            && var r := SumOf(ptA, ptB, c);
            && ok == r.Some?
            && outBuf[..] == if ok then Splice(old(outBuf[..]), outOff, EncodePoint(r.value, c)) else old(outBuf[..])
  {
    DecodeFits(aBuf[..][aOff..aOff + c.G1Bytes()], c);
    DecodeFits(bBuf[..][bOff..bOff + c.G1Bytes()], c);
    var ptA, ptB := ReadPoint(c, aBuf[..], aOff), ReadPoint(c, bBuf[..], bOff);
    ghost var r := SumOf(ptA, ptB, c);
    if ptA == Infinity {
      WriteResult(c, outBuf, outOff, ptB);
      return true;
    }
    if ptB == Infinity {
      WriteResult(c, outBuf, outOff, ptA);
      return true;
    }
    var result := TryAdd(ptA.x, ptA.y, ptB.x, ptB.y, c.p);
    if result.None? { return false; }
    WriteResult(c, outBuf, outOff, result.value);
    return true;
  }

  // ----- Scalars -----

  method WriteScalar(c: Params, buf: array<Byte>, off: nat, val: nat)
    requires Sound(c) && val < c.r && off + FR_BYTES <= buf.Length
    modifies buf
    ensures ReadScalar(buf[..], off) == val
    ensures buf[..off] == old(buf[..off]) && buf[off + FR_BYTES..] == old(buf[off + FR_BYTES..])
  {
    WriteCoord(buf, off, val, FR_BYTES);
    FitsBE(val, FR_BYTES);
    assert buf[..][off..off + FR_BYTES] == ToBE(val, FR_BYTES);
  }

  method ScalarMulAdd(c: Params, aBuf: array<Byte>, aOff: nat, bBuf: array<Byte>, bOff: nat,
                      cBuf: array<Byte>, cOff: nat, outBuf: array<Byte>, outOff: nat)
    requires Sound(c)
    requires aOff + FR_BYTES <= aBuf.Length && bOff + FR_BYTES <= bBuf.Length
    requires cOff + FR_BYTES <= cBuf.Length && outOff + FR_BYTES <= outBuf.Length
    modifies outBuf
    ensures ReadScalar(outBuf[..], outOff) == old(ReadScalar(aBuf[..], aOff)
              + ReadScalar(bBuf[..], bOff) * ReadScalar(cBuf[..], cOff)) % c.r
    ensures outBuf[..outOff] == old(outBuf[..outOff])
    ensures outBuf[outOff + FR_BYTES..] == old(outBuf[outOff + FR_BYTES..])
  {
    var x, y, z := ReadScalar(aBuf[..], aOff), ReadScalar(bBuf[..], bOff), ReadScalar(cBuf[..], cOff);
    CongMod(y * z, c.r);
    CongAdd((y * z) % c.r, y * z, x, x, c.r);
    WriteScalar(c, outBuf, outOff, ((y * z) % c.r + x) % c.r);
  }

  method ScalarNegate(c: Params, inBuf: array<Byte>, inOff: nat, outBuf: array<Byte>, outOff: nat)
    requires Sound(c) && inOff + FR_BYTES <= inBuf.Length && outOff + FR_BYTES <= outBuf.Length
    modifies outBuf
    ensures Cong(ReadScalar(outBuf[..], outOff) + old(ReadScalar(inBuf[..], inOff)), 0, c.r)
    ensures ReadScalar(outBuf[..], outOff) < c.r
    ensures outBuf[..outOff] == old(outBuf[..outOff])
    ensures outBuf[outOff + FR_BYTES..] == old(outBuf[outOff + FR_BYTES..])
  {
    var val := ReadScalar(inBuf[..], inOff);
    CongMod(c.r - val, c.r);
    CongAdd((c.r - val) % c.r, c.r - val, val, val, c.r);
    CongIntro(c.r, 0, 1, c.r);
    WriteScalar(c, outBuf, outOff, (c.r - val) % c.r);
  }

  method ReduceModOrder(c: Params, buf: array<Byte>, off: nat)
    requires Sound(c) && off + FR_BYTES <= buf.Length
    modifies buf
    ensures ReadScalar(buf[..], off) == old(ReadScalar(buf[..], off)) % c.r
    ensures buf[..off] == old(buf[..off]) && buf[off + FR_BYTES..] == old(buf[off + FR_BYTES..])
  {
    WriteScalar(c, buf, off, ReadScalar(buf[..], off) % c.r);
  }

  // ----- What the byte operations mean -----

  /** ecPointMul from bytes to bytes, for a scalar k; None if it throws. */
  ghost function MulBytes(c: Params, s: Bytes, k: nat): Option<Bytes>
    requires Sound(c) && |s| == c.G1Bytes()
  {
    DecodeFits(s, c);
    LadderReduced(k, DecodePoint(s, c), c.p);
    var r := TryLadder(k, DecodePoint(s, c), c.p);
    if r.None? then None else Some(EncodePoint(r.value, c))
  }

  ghost function AddBytes(c: Params, s: Bytes, t: Bytes): Option<Bytes>
    requires Sound(c) && |s| == |t| == c.G1Bytes()
  {
    DecodeFits(s, c);
    DecodeFits(t, c);
    var r := SumOf(DecodePoint(s, c), DecodePoint(t, c), c);
    if r.None? then None else Some(EncodePoint(r.value, c))
  }

  /** On a point of the curve ecPointMul does not throw, and the bytes it leaves decode to a point
      of the curve: under associativity the k-fold sum of the point whose bytes it read. */
  lemma ProductMeaning(c: Params, point: Bytes, pointOff: nat, scalar: Bytes, scalarOff: nat)
    requires Sound(c) && pointOff + c.G1Bytes() <= |point| && scalarOff + FR_BYTES <= |scalar|
    requires OnCurve(ReadPoint(c, point, pointOff), c.b, c.p)
    ensures var pt, k := ReadPoint(c, point, pointOff), ReadScalar(scalar, scalarOff);
            var r := Product(c, point, pointOff, scalar, scalarOff);
            && r.Some? && OnCurve(r.value, c.b, c.p) && DecodePoint(EncodePoint(r.value, c), c) == r.value
            && (Associative(c.b, c.p) ==> r.value == Multiple(k, pt, c.p))
  {
    var pt, k := ReadPoint(c, point, pointOff), ReadScalar(scalar, scalarOff);
    LadderTotal(k, pt, c.p);
    LadderOnCurve(k, pt, c.b, c.p);
    PointRoundTrip(Ladder(k, pt, c.p), c);
    if Associative(c.b, c.p) {
      LadderIsMultiple(k, pt, c.b, c.p);
    }
  }
}
