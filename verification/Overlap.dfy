/** The third output of a commit with a basename. K_card has been written over the basename's bytes,
    all but the last five of what the card reads back; the third multiple is taken of what is left
    there. On both curves, for every basename, share and nonce, this decides when that is the
    intended multiple of the basename. */
module Overlap {
  import opened Options
  import opened Versions
  import opened Modular
  import opened Bytes
  import opened Curve
  import opened RawCurve
  import opened ECMath
  import opened CardArithmetic
  import CardSpec

  /** The basename's group: its order is the prime r; associativity is taken on trust. */
  ghost predicate BasenameGroup(c: Params, base: Point) {
    && Sound(c) && Prime(c.r) && Associative(c.b, c.p)
    && OnCurve(base, c.b, c.p) && Multiple(c.r, base, c.p).Infinity?
  }

  /** The bytes the third multiplication reads, for basename base and share sk. */
  ghost function OverlaidBytes(c: Params, base: Point, sk: nat): (s: Bytes)
    requires Sound(c) && Canonical(base, c.p)
    ensures |s| == c.G1Bytes()
  {
    CardSpec.Overlaid(EncodePoint(Ladder(sk, base, c.p), c), EncodePoint(base, c))
  }

  /** What the card takes them for: any coordinates, or null. */
  ghost function Seen(c: Params, base: Point, sk: nat): (s: Point)
    requires Sound(c) && Canonical(base, c.p)
    ensures Fits(s, c)
  {
    DecodeFits(OverlaidBytes(c, base, sk), c);
    DecodePoint(OverlaidBytes(c, base, sk), c)
  }

  /** seen does for base under the nonce r: it is base, or the nonce is zero, or, once the nonce is
      at least two and the coordinates have been reduced, the two differ by a point that r annihilates. */
  ghost predicate DoesFor(c: Params, seen: Point, base: Point, r: nat)
    requires Sound(c) && Canonical(base, c.p)
  {
    || r == 0 || seen == base
    || (r >= 2 && seen.Affine? && OnCurve(Reduce(seen, c.p), c.b, c.p)
        && Multiple(r, Difference(Reduce(seen, c.p), base, c.p), c.p).Infinity?)
  }

  // ----- Encodings of unreduced points -----

  lemma UncompressedSeparates(t: Point, w: Point, c: Params)
    requires Sound(c) && c.version.BN254? && Fits(t, c) && w.Affine? && OnCurve(w, c.b, c.p)
    ensures EncodePoint(t, c) == EncodePoint(w, c) <==> t == w
  {
    if EncodePoint(t, c) == EncodePoint(w, c) {
      if t.Affine? {
        AffineBytes(t, w, c);
      } else {
        PointRoundTrip(w, c);
        PointRoundTrip(Infinity, c);
      }
    }
  }

  lemma AffineBytes(t: Point, w: Point, c: Params)
    requires Sound(c) && c.version.BN254? && t.Affine? && w.Affine? && Fits(t, c) && Fits(w, c)
    requires EncodePoint(t, c) == EncodePoint(w, c)
    ensures t == w
  {
    Fields([0x04], ToBE(t.x, 32), ToBE(t.y, 32));
    Fields([0x04], ToBE(w.x, 32), ToBE(w.y, 32));
    FitsBE(t.x, 32);
    FitsBE(t.y, 32);
    FitsBE(w.x, 32);
    FitsBE(w.y, 32);
  }

  /** Two flagged strings with one coordinate in each: the coordinates and the flags agree. */
  lemma FlaggedBytes(s: Bytes, t: Bytes, f: Byte, g: Byte)
    requires |s| == |t| > 0 && s[0] < 32 && t[0] < 32 && f in {0x80, 0xA0} && g in {0x80, 0xA0}
    requires s[0 := s[0] + f] == t[0 := t[0] + g]
    ensures s == t && f == g
  {
    assert s[0 := s[0] + f][0] == s[0] + f && t[0 := t[0] + g][0] == t[0] + g;
    forall i | 0 <= i < |s| ensures s[i] == t[i] {
      if i > 0 { assert s[0 := s[0] + f][i] == s[i] && t[0 := t[0] + g][i] == t[i]; }
    }
  }

  /** On one side of p/2 there is one root, and p, which stands for a root of zero, is on the other. */
  lemma SameSide(y: int, w: int, p: int)
    requires OddPrime(p) && 0 <= y <= p && 0 <= w < p && Cong((y % p) * (y % p), w * w, p)
    requires y > p / 2 <==> w > p / 2
    ensures y == w
  {
    assert p % 2 != 0;
    if y == p {
      ModUnique(y, 1, 0, p);
    } else {
      ModUnique(y, 0, y, p);
    }
    TwoRoots(y % p, w, p);
  }

  lemma AffineFlagged(t: Point, w: Point, c: Params)
    requires Sound(c) && c.version.BLS381? && Fits(t, c) && t.Affine? && w.Affine?
    requires OnCurve(w, c.b, c.p) && OnCurve(Reduce(t, c.p), c.b, c.p)
    requires EncodePoint(t, c) == EncodePoint(w, c)
    ensures t == w
  {
    TopByteFree(t.x, c);
    TopByteFree(w.x, c);
    FlaggedBytes(ToBE(t.x, 48), ToBE(w.x, 48), Flags(t.y, c.p), Flags(w.y, c.p));
    FitsBE(t.x, 48);
    FitsBE(w.x, 48);
    ModUnique(w.x, 0, w.x, c.p);
    SameAbscissa(t, w, c);
  }

  lemma SameAbscissa(t: Point, w: Point, c: Params)
    requires Sound(c) && t.Affine? && w.Affine? && t.x == w.x && 0 <= t.y <= c.p
    requires OnCurve(w, c.b, c.p) && OnCurve(Reduce(t, c.p), c.b, c.p)
    requires Flags(t.y, c.p) == Flags(w.y, c.p)
    ensures t == w
  {
    ModUnique(w.x, 0, w.x, c.p);
    var u := Reduce(t, c.p);
    assert u.x == w.x;
    if t.y == c.p { ModUnique(t.y, 1, 0, c.p); } else { ModUnique(t.y, 0, t.y, c.p); }
    assert u.y == t.y % c.p;
    SameSide(t.y, w.y, c.p);
  }

  lemma FlaggedTop(t: Point, c: Params)
    requires Sound(c) && c.version.BLS381? && Fits(t, c) && t.Affine?
    ensures EncodePoint(t, c) != EncodePoint(Infinity, c)
  {
    TopByteFree(t.x, c);
    var s := ToBE(t.x, 48);
    assert EncodePoint(t, c)[0] == s[0] + Flags(t.y, c.p) < 0xC0;
    assert EncodePoint(Infinity, c)[0] == 0xC0;
  }

  lemma CompressedSeparates(t: Point, w: Point, c: Params)
    requires Sound(c) && c.version.BLS381? && Fits(t, c) && OnCurve(w, c.b, c.p) && OnCurve(Reduce(t, c.p), c.b, c.p)
    ensures EncodePoint(t, c) == EncodePoint(w, c) <==> t == w
  {
    if t.Affine? && w.Affine? {
      if EncodePoint(t, c) == EncodePoint(w, c) { AffineFlagged(t, w, c); }
    } else if t.Affine? {
      FlaggedTop(t, c);
    } else if w.Affine? {
      FlaggedTop(w, c);
    }
  }

  /** The two formats together, for a result t of the card's and a point w of the curve. */
  lemma Separates(t: Point, w: Point, c: Params)
    requires Sound(c) && Fits(t, c) && OnCurve(w, c.b, c.p)
    requires c.version.BN254? ==> w.Affine?
    requires c.version.BLS381? ==> OnCurve(Reduce(t, c.p), c.b, c.p)
    ensures EncodePoint(t, c) == EncodePoint(w, c) <==> t == w
  {
    if c.version.BN254? {
      UncompressedSeparates(t, w, c);
    } else {
      CompressedSeparates(t, w, c);
    }
  }

  /** A compressed string that is not read as null is read as a point of the curve, unreduced. */
  lemma CompressedOnCurve(s: Bytes, c: Params)
    requires Sound(c) && c.version.BLS381? && |s| == 48
    ensures OnCurve(Reduce(DecodePoint(s, c), c.p), c.b, c.p)
  {
    var pt, p := DecodePoint(s, c), c.p;
    if pt.Affine? {
      ModUnique(RightHandSide(pt.x, c), 0, RightHandSide(pt.x, c), p);
      RootSquares(RightHandSide(pt.x, c), Bit(s[0], 0x20), p);
      CurveValueOf(pt.x, pt.y, c);
      ResiduesOnCurve(pt, c.b, p);
    }
  }

  lemma ResiduesOnCurve(s: Point, b: int, p: int)
    requires OddPrime(p) && s.Affine? && Cong(s.y * s.y, s.x * s.x * s.x + b, p)
    ensures OnCurve(Reduce(s, p), b, p)
  {
    var x, y := s.x % p, s.y % p;
    CongMod(s.x, p);
    CongMod(s.y, p);
    CongMul(y, s.y, y, s.y, p);
    CongMul(x, s.x, x, s.x, p);
    CongMul(x * x, s.x * s.x, x, s.x, p);
    CongAdd(x * x * x, s.x * s.x * s.x, b, b, p);
    if Canonical(s, p) { ModUnique(s.x, 0, s.x, p); ModUnique(s.y, 0, s.y, p); }
  }

  // ----- Off the curve -----

  /** The coefficient of the curve y^2 = x^3 + b' through a point. */
  function Coefficient(s: Point): int
    requires s.Affine?
  {
    s.y * s.y - s.x * s.x * s.x
  }

  lemma OnOwnCurve(s: Point, p: int)
    requires OddPrime(p) && s.Affine? && Canonical(s, p)
    ensures OnCurve(s, Coefficient(s), p)
  {
    CongIntro(s.y * s.y, s.x * s.x * s.x + Coefficient(s), 0, p);
  }

  /** Curves that share an affine point are the same curve. */
  lemma SharedPoint(w: Point, s: Point, c: Params)
    requires Sound(c) && w.Affine? && s.Affine? && Canonical(s, c.p)
    requires OnCurve(w, c.b, c.p) && OnCurve(w, Coefficient(s), c.p)
    ensures OnCurve(s, c.b, c.p)
  {
    var x, d := w.x * w.x * w.x, Coefficient(s);
    CongAdd(x + c.b, x + d, -x, -x, c.p);
    assert Cong(c.b, d, c.p);
    var sx := s.x * s.x * s.x;
    CongAdd(sx, sx, d, c.b, c.p);
    assert sx + d == s.y * s.y;
  }

  /** Addition never uses the coefficient, so a run on a point off the curve stays on that point's
      own curve: it never ends in an affine point of ours. */
  lemma OffCurve(c: Params, s: Point, w: Point, r: nat)
    requires Sound(c) && s.Affine? && !OnCurve(Reduce(s, c.p), c.b, c.p)
    requires w.Affine? && OnCurve(w, c.b, c.p)
    ensures TryLadder(r, s, c.p) != Some(w)
  {
    var u := Reduce(s, c.p);
    OnOwnCurve(u, c.p);
    RawLadderOnCurve(r, s, Coefficient(u), c.p);
    if TryLadder(r, s, c.p) == Some(w) {
      SharedPoint(w, u, c);
      assert false;
    }
  }

  // ----- The decision -----

  /** The run on seen ends in the bytes of the intended multiple. */
  ghost predicate Hits(c: Params, seen: Point, base: Point, r: nat)
    requires Sound(c) && OnCurve(base, c.b, c.p)
  {
    var t := TryLadder(r, seen, c.p);
    t.Some? && Fits(t.value, c) && EncodePoint(t.value, c) == EncodePoint(Multiple(r, base, c.p), c)
  }

  /** What the card answers for the basename's own bytes. */
  lemma Intended(c: Params, base: Point, r: nat)
    requires BasenameGroup(c, base)
    ensures OnCurve(Multiple(r, base, c.p), c.b, c.p)
    ensures MulBytes(c, EncodePoint(base, c), r) == Some(EncodePoint(Multiple(r, base, c.p), c))
  {
    PointRoundTrip(base, c);
    LadderTotal(r, base, c.p);
    LadderIsMultiple(r, base, c.b, c.p);
    MultipleOnCurve(r, base, c.b, c.p);
  }

  /** A nonce of one copies the coordinates as they were read. */
  lemma CopyDecides(c: Params, seen: Point, base: Point)
    requires BasenameGroup(c, base) && base.Affine? && seen.Affine? && Fits(seen, c) && 1 < c.r
    requires c.version.BLS381? ==> OnCurve(Reduce(seen, c.p), c.b, c.p)
    ensures Hits(c, seen, base, 1) <==> seen == base
  {
    FirstMultiples(base, c.p);
    assert TryLadder(0, seen, c.p) == Some(Infinity);
    assert TryLadder(1, seen, c.p) == Some(seen);
    Separates(seen, base, c);
  }

  lemma OnCurveDecides(c: Params, seen: Point, base: Point, r: nat)
    requires BasenameGroup(c, base) && base.Affine? && seen.Affine? && Fits(seen, c) && 2 <= r < c.r
    requires OnCurve(Reduce(seen, c.p), c.b, c.p)
    ensures Hits(c, seen, base, r) <==> Multiple(r, Difference(Reduce(seen, c.p), base, c.p), c.p).Infinity?
  {
    var w, t := Multiple(r, base, c.p), TryLadder(r, seen, c.p);
    ModUnique(r, 0, r, c.r);
    PrimeOrder(r, c.r, base, c.b, c.p);
    MultipleOnCurve(r, base, c.b, c.p);
    LadderReduced(r, seen, c.p);
    RawLadderOnCurve(r, seen, c.b, c.p);
    LadderDecides(r, seen, base, c.r, c.b, c.p);
    if t.Some? { Separates(t.value, w, c); }
  }

  lemma OffCurveDecides(c: Params, seen: Point, base: Point, r: nat)
    requires BasenameGroup(c, base) && base.Affine? && seen.Affine? && Fits(seen, c) && 2 <= r < c.r
    requires c.version.BN254? && !OnCurve(Reduce(seen, c.p), c.b, c.p)
    ensures !Hits(c, seen, base, r)
  {
    var w, t := Multiple(r, base, c.p), TryLadder(r, seen, c.p);
    ModUnique(r, 0, r, c.r);
    PrimeOrder(r, c.r, base, c.b, c.p);
    MultipleOnCurve(r, base, c.b, c.p);
    LadderReduced(r, seen, c.p);
    OffCurve(c, seen, w, r);
    if t.Some? { Separates(t.value, w, c); }
  }

  /** seen affine, base affine, r >= 1: the run's result is compared with the intended multiple. */
  lemma AffineDecides(c: Params, seen: Point, base: Point, r: nat)
    requires BasenameGroup(c, base) && base.Affine? && seen.Affine? && Fits(seen, c) && 0 < r < c.r
    requires c.version.BLS381? ==> OnCurve(Reduce(seen, c.p), c.b, c.p)
    ensures Hits(c, seen, base, r) <==> DoesFor(c, seen, base, r)
  {
    if r == 1 {
      CopyDecides(c, seen, base);
    } else if OnCurve(Reduce(seen, c.p), c.b, c.p) {
      OnCurveDecides(c, seen, base, r);
      if seen == base {
        DifferenceZero(base, base, c.b, c.p);
        MultipleOfIdentity(r, c.p);
      }
    } else {
      OffCurveDecides(c, seen, base, r);
    }
  }

  lemma AllZero(s: Bytes)
    requires forall i :: 0 <= i < |s| ==> s[i] == 0
    ensures s == Zeros(|s|) && FromBE(s) == 0
  {
    ZeroValue(|s|);
    assert s == Zeros(|s|);
  }

  /** The identity as basename: on BN254 its overlaid bytes read as null again, on BLS12-381 as null
      or as a reduced point with abscissa zero. */
  lemma IdentitySeen(c: Params, sk: nat)
    requires Sound(c)
    ensures Canonical(Seen(c, Infinity, sk), c.p)
    ensures c.version.BN254? ==> Seen(c, Infinity, sk) == Infinity
  {
    InfinityLadder(sk, c.p);
    var k, s := EncodePoint(Infinity, c), OverlaidBytes(c, Infinity, sk);
    assert forall i :: 0 < i < |k| ==> k[i] == 0;
    forall i | 0 <= i < |s| ensures s[i] == 0 {
      assert s[i] == if i + 5 < |k| then k[i + 5] else k[i];
    }
    if c.version.BN254? {
      AllZero(s[1..33]);
      AllZero(s[33..65]);
    } else {
      AllZero(s);
      assert s[0 := s[0] % 0x20] == s;
    }
  }

  lemma IdentityDecides(c: Params, sk: nat, r: nat)
    requires BasenameGroup(c, Infinity) && 0 < r
    ensures Hits(c, Seen(c, Infinity, sk), Infinity, r) <==> DoesFor(c, Seen(c, Infinity, sk), Infinity, r)
  {
    var seen := Seen(c, Infinity, sk);
    IdentitySeen(c, sk);
    MultipleOfIdentity(r, c.p);
    LadderTotal(r, seen, c.p);
    if seen.Affine? {
      CompressedOnCurve(OverlaidBytes(c, Infinity, sk), c);
      MultipleOnCurve(r, seen, c.b, c.p);
      LadderIsMultiple(r, seen, c.b, c.p);
      EncodingInjective(Multiple(r, seen, c.p), Infinity, c);
      FirstMultiples(seen, c.p);
    }
  }

  lemma MulHits(c: Params, s: Bytes, base: Point, r: nat)
    requires BasenameGroup(c, base) && |s| == c.G1Bytes()
    ensures Canonical(Multiple(r, base, c.p), c.p)
    ensures (MulBytes(c, s, r) == Some(EncodePoint(Multiple(r, base, c.p), c))) <==> Hits(c, DecodePoint(s, c), base, r)
  {
    DecodeFits(s, c);
    LadderReduced(r, DecodePoint(s, c), c.p);
  }

  lemma NullDecides(c: Params, base: Point, r: nat)
    requires BasenameGroup(c, base) && base.Affine? && 0 < r < c.r
    ensures !Hits(c, Infinity, base, r)
  {
    ModUnique(r, 0, r, c.r);
    PrimeOrder(r, c.r, base, c.b, c.p);
    MultipleOnCurve(r, base, c.b, c.p);
    EncodingInjective(Infinity, Multiple(r, base, c.p), c);
  }

  lemma SeenDecides(c: Params, base: Point, sk: nat, r: nat)
    requires BasenameGroup(c, base) && r < c.r
    ensures Hits(c, Seen(c, base, sk), base, r) <==> DoesFor(c, Seen(c, base, sk), base, r)
  {
    var seen := Seen(c, base, sk);
    if r == 0 {
      assert TryLadder(0, seen, c.p) == Some(Infinity) && Multiple(0, base, c.p) == Infinity;
    } else if base.Infinity? {
      IdentityDecides(c, sk, r);
    } else if seen.Affine? {
      if c.version.BLS381? { CompressedOnCurve(OverlaidBytes(c, base, sk), c); }
      AffineDecides(c, seen, base, r);
    } else {
      NullDecides(c, base, r);
    }
  }

  /** Whether the card's third output is the basename's multiple by the nonce: for every point of
      the group as basename, every share and every nonce, on either curve. */
  lemma ThirdOutputIff(env: CardSpec.CardEnv, c: Params, base: Point, sk: nat, r: nat)
    requires BasenameGroup(c, base) && Computes(env, c) && r < c.r
    ensures (env.mul(c.version, OverlaidBytes(c, base, sk), r) == env.mul(c.version, EncodePoint(base, c), r))
        <==> DoesFor(c, Seen(c, base, sk), base, r)
  {
    Intended(c, base, r);
    SeenDecides(c, base, sk, r);
    MulHits(c, OverlaidBytes(c, base, sk), base, r);
    assert env.mul(c.version, OverlaidBytes(c, base, sk), r) == MulBytes(c, OverlaidBytes(c, base, sk), r);
    assert env.mul(c.version, EncodePoint(base, c), r) == MulBytes(c, EncodePoint(base, c), r);
  }

  /** Among points that r annihilates, as on all of BN254, the condition is that the bytes still
      read as the basename, or do so once reduced and the nonce is at least two. */
  lemma DoesForInGroup(c: Params, seen: Point, base: Point, r: nat)
    requires BasenameGroup(c, base) && r < c.r
    requires seen.Affine? && OnCurve(Reduce(seen, c.p), c.b, c.p) ==> Multiple(c.r, Reduce(seen, c.p), c.p).Infinity?
    ensures DoesFor(c, seen, base, r)
        <==> (r == 0 || seen == base || (r >= 2 && seen.Affine? && Reduce(seen, c.p) == base))
  {
    if r >= 2 && seen.Affine? && OnCurve(Reduce(seen, c.p), c.b, c.p) {
      SameGroupDecides(r, Reduce(seen, c.p), base, c.r, c.b, c.p);
    }
  }

  /** BN254's group: prime order, so the scalar order annihilates every point of the curve. */
  ghost predicate WholeGroup(c: Params) {
    && Sound(c) && c.version.BN254? && Prime(c.r) && Associative(c.b, c.p)
    && forall s {:trigger Multiple(c.r, s, c.p)} :: OnCurve(s, c.b, c.p) ==> Multiple(c.r, s, c.p).Infinity?
  }

  lemma ThirdOutputOnBN254(env: CardSpec.CardEnv, c: Params, base: Point, sk: nat, r: nat)
    requires WholeGroup(c) && Computes(env, c) && OnCurve(base, c.b, c.p) && r < c.r
    ensures var seen := Seen(c, base, sk);
            && (env.mul(BN254, OverlaidBytes(c, base, sk), r) == env.mul(BN254, EncodePoint(base, c), r)
                <==> r == 0 || seen == base || (r >= 2 && seen.Affine? && Reduce(seen, c.p) == base))
  {
    ThirdOutputIff(env, c, base, sk, r);
    DoesForInGroup(c, Seen(c, base, sk), base, r);
  }

  /** On BLS12-381: bytes read as null are wrong for every nonce but zero; bytes read as a point of
      the basename's group are right only for the basename. */
  lemma ThirdOutputOnBLS381(env: CardSpec.CardEnv, c: Params, base: Point, sk: nat, r: nat)
    requires BasenameGroup(c, base) && Computes(env, c) && base.Affine? && c.version.BLS381? && r < c.r
    ensures var seen := Seen(c, base, sk);
            var right := env.mul(BLS381, OverlaidBytes(c, base, sk), r) == env.mul(BLS381, EncodePoint(base, c), r);
            && (seen.Infinity? ==> (right <==> r == 0))
            && (seen.Affine? && Multiple(c.r, Reduce(seen, c.p), c.p).Infinity? ==>
                  (right <==> r == 0 || seen == base || (r >= 2 && Reduce(seen, c.p) == base)))
  {
    ThirdOutputIff(env, c, base, sk, r);
    var seen := Seen(c, base, sk);
    if seen.Affine? && Multiple(c.r, Reduce(seen, c.p), c.p).Infinity? {
      DoesForInGroup(c, seen, base, r);
    }
  }

  /** A concrete miss: the generator (1, 2) as basename, share and nonce 1. The card multiplies
      (2^40, 2^41 + 2), which is not on the curve, and so answers another point. */
  lemma ThirdOutputMisses(env: CardSpec.CardEnv)
    requires Prime(BN254_PARAMS.p) && Sound(BN254_PARAMS) && Computes(env, BN254_PARAMS)
    ensures var c, base := BN254_PARAMS, Affine(1, 2);
            && OnCurve(base, c.b, c.p)
            && DecodePoint(OverlaidBytes(c, base, 1), c) == Affine(0x100_0000_0000, 0x200_0000_0002)
            && env.mul(BN254, OverlaidBytes(c, base, 1), 1) != env.mul(BN254, EncodePoint(base, c), 1)
  {
    var c, base := BN254_PARAMS, Affine(1, 2);
    var seen := Affine(0x100_0000_0000, 0x200_0000_0002);
    CongIntro(2 * 2, 1 * 1 * 1 + c.b, 0, c.p);
    OneFold(base, c.p);
    OneFold(seen, c.p);
    OverlaidGenerator(c);
    PointRoundTrip(base, c);
    PowPositive(256, 31);
    assert Pow(256, 32) == 256 * Pow(256, 31);
    assert Pow(256, 6) == 0x1_0000_0000_0000;
    PowAdd(256, 6, 26);
    PowPositive(256, 26);
    LadderTotal(1, base, c.p);
    LadderTotal(1, seen, c.p);
    UncompressedSeparates(seen, base, c);
  }

  lemma OneFold(s: Point, p: int)
    requires OddPrime(p) && Canonical(s, p)
    ensures Ladder(1, s, p) == s
  {
    assert Ladder(0, s, p) == Infinity;
  }

  /** The generator's encoding laid over itself: single ones at 27, twos at 59 and 64. */
  lemma OverlaidOnes(k: Bytes, s: Bytes)
    requires k == [0x04] + (Zeros(31) + [1]) + (Zeros(31) + [2]) && s == CardSpec.Overlaid(k, k)
    ensures s[1..33] == Zeros(26) + [1, 0, 0, 0, 0, 0]
    ensures s[33..65] == Zeros(26) + [2, 0, 0, 0, 0, 2]
  {
    assert forall i :: 0 <= i < 65 ==> k[i] == if i == 0 then 4 else if i == 32 then 1 else if i == 64 then 2 else 0;
    forall i | 0 <= i < 65 ensures s[i] == if i == 27 then 1 else if i == 59 || i == 64 then 2 else 0 {
      assert s[i] == if i < 60 then k[i + 5] else k[i];
    }
  }

  lemma OverlaidGenerator(c: Params)
    requires Sound(c) && c.version.BN254? && c.p > 0x200_0000_0002
    ensures DecodePoint(OverlaidBytes(c, Affine(1, 2), 1), c) == Affine(0x100_0000_0000, 0x200_0000_0002)
  {
    var k, s := EncodePoint(Affine(1, 2), c), OverlaidBytes(c, Affine(1, 2), 1);
    OneFold(Affine(1, 2), c.p);
    HighZeros(1, 32, 1);
    HighZeros(2, 32, 1);
    assert ToBE(1, 1) == [1] && ToBE(2, 1) == [2];
    OverlaidOnes(k, s);
    FieldValue(s[1..33], 1, 0);
    FieldValue(s[33..65], 2, 2);
  }

  /** 26 zero bytes, hi, four zero bytes, lo. */
  lemma FieldValue(s: Bytes, hi: Byte, lo: Byte)
    requires s == Zeros(26) + [hi, 0, 0, 0, 0, lo]
    ensures FromBE(s) == hi * 0x100_0000_0000 + lo
  {
    var z := Zeros(26);
    ZeroValue(26);
    FromAppend(z, hi);
    FromAppend(z + [hi], 0);
    FromAppend(z + [hi] + [0], 0);
    FromAppend(z + [hi] + [0] + [0], 0);
    FromAppend(z + [hi] + [0] + [0] + [0], 0);
    FromAppend(z + [hi] + [0] + [0] + [0] + [0], lo);
    assert s == z + [hi] + [0] + [0] + [0] + [0] + [lo];
  }
}
