/** Bytes, fixed-width big-endian integers, and copies into byte arrays. */
module Bytes {
  import opened Modular

  type Byte = b: int | 0 <= b < 256
  type Bytes = seq<Byte>

  function FromBE(s: Bytes): (v: nat)
  {
    if s == [] then 0 else FromBE(s[..|s| - 1]) * 256 + s[|s| - 1]
  }

  /** The low n bytes of v, most significant first. */
  function ToBE(v: nat, n: nat): (s: Bytes)
    ensures |s| == n
  {
    if n == 0 then [] else ToBE(v / 256, n - 1) + [v % 256]
  }

  function Zeros(n: nat): (s: Bytes)
    ensures |s| == n && forall i :: 0 <= i < n ==> s[i] == 0
  {
    seq(n, i => 0)
  }

  lemma {:induction false} FromToBE(v: nat, n: nat)
    ensures Pow(256, n) > 0
    ensures FromBE(ToBE(v, n)) == v % Pow(256, n)
  {
    PowPositive(256, n);
    if n > 0 {
      FromToBE(v / 256, n - 1);
      FromAppend(ToBE(v / 256, n - 1), v % 256);
      SplitDigits(v, Pow(256, n - 1));
    } else {
      ModUnique(v, v, 0, 1);
    }
  }

  lemma FromAppend(s: Bytes, b: Byte)
    ensures FromBE(s + [b]) == FromBE(s) * 256 + b
  {
    assert (s + [b])[..|s|] == s;
  }

  lemma SplitDigits(v: nat, m: int)
    requires m > 0
    ensures v % (256 * m) == v / 256 % m * 256 + v % 256
    ensures v / (256 * m) == v / 256 / m
  {
    DigitsUnique(v, v / 256 / m, v / 256 % m, m);
  }

  lemma DigitsUnique(v: nat, d: nat, h: nat, m: int)
    requires m > 0 && v / 256 == d * m + h && h < m
    ensures v % (256 * m) == h * 256 + v % 256
    ensures v / (256 * m) == d
  {
    assert v == 256 * (d * m + h) + v % 256;
    assert 256 * (d * m) == d * (256 * m);
    ModUnique(v, d, h * 256 + v % 256, 256 * m);
  }

  /** A value that fits is read back unchanged. */
  lemma FitsBE(v: nat, n: nat)
    requires v < Pow(256, n)
    ensures FromBE(ToBE(v, n)) == v
  {
    FromToBE(v, n);
    ModUnique(v, 0, v, Pow(256, n));
  }

  lemma {:induction false} ToFromBE(s: Bytes)
    ensures ToBE(FromBE(s), |s|) == s
    ensures FromBE(s) < Pow(256, |s|)
  {
    if s != [] {
      var h := s[..|s| - 1];
      ToFromBE(h);
      ModUnique(FromBE(s), FromBE(h), s[|s| - 1], 256);
      assert s == h + [s[|s| - 1]];
    }
  }

  /** Dropping leading bytes keeps the low ones. */
  lemma {:induction false} LowBytes(v: nat, n: nat, m: nat)
    requires m <= n
    ensures ToBE(v, n)[n - m..] == ToBE(v, m)
  {
    if m > 0 {
      LowBytes(v / 256, n - 1, m - 1);
      assert ToBE(v, n)[n - m..] == ToBE(v / 256, n - 1)[n - m..] + [v % 256];
    }
  }

  lemma {:induction false} HighZeros(v: nat, n: nat, m: nat)
    requires m <= n && v < Pow(256, m)
    ensures ToBE(v, n) == Zeros(n - m) + ToBE(v, m)
  {
    if n > 0 {
      if m == 0 {
        ModUnique(0, 0, 0, 256);
        HighZeros(0, n - 1, 0);
      } else {
        HighZeros(v / 256, n - 1, m - 1);
      }
    }
  }

  /** The first byte of a fixed-width encoding is the most significant digit. */
  lemma {:induction false} FirstByte(v: nat, n: nat)
    requires n > 0 && v < Pow(256, n)
    ensures Pow(256, n - 1) > 0 && ToBE(v, n)[0] == v / Pow(256, n - 1)
  {
    PowPositive(256, n - 1);
    if n > 1 {
      FirstByte(v / 256, n - 1);
      SplitDigits(v, Pow(256, n - 2));
    } else {
      assert Pow(256, 1) == 256 * Pow(256, 0) == 256;
      ModUnique(v, 0, v, 256);
    }
  }

  // ----- BigInteger.toByteArray and writes into buffers -----

  /** Length of the minimal two's complement form of v >= 0: one sign bit is kept. */
  function SignedLength(v: nat): (n: nat)
    ensures n > 0 && 2 * v < Pow(256, n)
  {
    if v < 128 then
      assert Pow(256, 1) == 256 * Pow(256, 0) == 256;
      1
    else
      1 + SignedLength(v / 256)
  }

  function ToByteArray(v: nat): Bytes {
    ToBE(v, SignedLength(v))
  }

  /** s with the bytes from off on replaced by t. */
  function Splice(s: Bytes, off: nat, t: Bytes): (r: Bytes)
    requires off + |t| <= |s|
    ensures |r| == |s|
  {
    s[..off] + t + s[off + |t|..]
  }

  lemma SubSlice(s: Bytes, lo: nat, hi: nat, a: nat, b: nat)
    requires lo <= hi <= |s| && a <= b <= hi - lo
    ensures s[lo..hi][a..b] == s[lo + a..lo + b]
  {
    var x, y := s[lo..hi][a..b], s[lo + a..lo + b];
    assert |x| == |y| && forall i :: 0 <= i < |x| ==> x[i] == y[i];
  }

  lemma SpliceRead(s: Bytes, off: nat, t: Bytes)
    requires off + |t| <= |s|
    ensures Splice(s, off, t)[off..off + |t|] == t
    ensures off == 0 ==> Splice(s, off, t)[..|t|] == t
  {
  }

  lemma SpliceElsewhere(s: Bytes, off: nat, t: Bytes, lo: nat, hi: nat)
    requires off + |t| <= |s| && lo <= hi <= |s| && (hi <= off || off + |t| <= lo)
    ensures Splice(s, off, t)[lo..hi] == s[lo..hi]
  {
  }

  /** System.arraycopy from a value. */
  method CopyInto(src: Bytes, dst: array<Byte>, off: nat)
    requires off + |src| <= dst.Length
    modifies dst
    ensures dst[..] == Splice(old(dst[..]), off, src)
  {
    ghost var before := dst[..];
    for i := 0 to |src|
      invariant forall j :: 0 <= j < dst.Length ==> dst[j] == if off <= j < off + i then src[j - off] else before[j]
    {
      dst[off + i] := src[i];
    }
  }

  method ZeroFill(buf: array<Byte>, off: nat, len: nat)
    requires off + len <= buf.Length
    modifies buf
    ensures buf[..] == Splice(old(buf[..]), off, Zeros(len))
  {
    ghost var before := buf[..];
    for i := 0 to len
      invariant forall j :: 0 <= j < buf.Length ==> buf[j] == if off <= j < off + i then 0 else before[j]
    {
      buf[off + i] := 0;
    }
  }

  /** The bytes of the minimal form that are kept, and how far they are shifted: a sign byte is
      skipped first, then any excess. */
  method AlignRight(encoded: Bytes, len: nat) returns (tail: Bytes, destOff: nat)
    requires encoded != []
    ensures tail == if |encoded| <= len then encoded else encoded[|encoded| - len..]
    ensures destOff == len - |tail|
  {
    var srcOff: int, encLen: int := 0, |encoded|;
    if encLen > len && encoded[0] == 0 {
      srcOff := 1;
      encLen := encLen - 1;
    }
    var d := len - encLen;
    if d < 0 {
      srcOff := srcOff - d;
      encLen := encLen + d;
      d := 0;
    }
    tail, destOff := encoded[srcOff..srcOff + encLen], d;
  }

  /** What is copied over the zero-filled field, and from where. */
  method Padded(val: nat, len: nat) returns (tail: Bytes, destOff: nat)
    ensures destOff + |tail| == len && Zeros(len)[..destOff] + tail == ToBE(val, len)
  {
    tail, destOff := AlignRight(ToByteArray(val), len);
    PaddedTail(val, len, tail);
  }

  /** Writes val big-endian into exactly len bytes. */
  method WriteCoord(buf: array<Byte>, off: nat, val: nat, len: nat)
    requires off + len <= buf.Length
    modifies buf
    ensures buf[..] == Splice(old(buf[..]), off, ToBE(val, len))
  {
    ghost var before := buf[..];
    var tail, destOff := Padded(val, len);
    ZeroFill(buf, off, len);
    CopyInto(tail, buf, off + destOff);
    SpliceTwice(before, off, Zeros(len), tail, destOff);
  }

  /** Right-aligning the minimal form, zero-padded or cut, gives the fixed-width form. */
  lemma PaddedTail(val: nat, len: nat, tail: Bytes)
    requires var e := ToByteArray(val);
             tail == if |e| <= len then e else e[|e| - len..]
    ensures |tail| <= len && Zeros(len)[..len - |tail|] + tail == ToBE(val, len)
  {
    var n := SignedLength(val);
    if n <= len {
      WidthOfSigned(val, n);
      HighZeros(val, len, n);
      ZerosPrefix(len, len - n);
    } else {
      LowBytes(val, n, len);
      EmptyPrefix(Zeros(len), tail);
    }
  }

  lemma WidthOfSigned(val: nat, n: nat)
    requires n == SignedLength(val)
    ensures val < Pow(256, n)
  {
  }

  lemma ZerosPrefix(n: nat, m: nat)
    requires m <= n
    ensures Zeros(n)[..m] == Zeros(m)
  {
  }

  lemma EmptyPrefix(z: Bytes, t: Bytes)
    ensures z[..0] + t == t
  {
  }

  lemma SpliceTwice(s: Bytes, off: nat, z: Bytes, t: Bytes, d: nat)
    requires off + |z| <= |s| && d + |t| == |z|
    ensures Splice(Splice(s, off, z), off + d, t) == Splice(s, off, z[..d] + t)
  {
  }
}
