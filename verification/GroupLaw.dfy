/** The computed sum is the group law's: the third point of the line through the operands, mirrored.
    No associativity is assumed here. */
module GroupLaw {
  import opened Modular
  import opened Curve

  // ----- The sum by its line -----

  lemma FactorOut(a: int, b: int, v: int, p: int)
    requires Prime(p) && v % p != 0
    ensures Cong(a * v, b * v, p) <==> Cong(a, b, p)
  {
    if Cong(a * v, b * v, p) {
      Cancel(a, b, v, p);
    } else if Cong(a, b, p) {
      CongMul(a, b, v, v, p);
    }
  }

  lemma Shifted(a: int, b: int, s: int, p: int)
    requires p > 0
    ensures Cong(a + s, b + s, p) <==> Cong(a, b, p)
  {
    if Cong(a + s, b + s, p) { CongAdd(a + s, b + s, s, s, p); } else if Cong(a, b, p) { CongAdd(a, b, s, s, p); }
  }

  lemma ResidueOf(r: int, a: int, p: int)
    requires p > 0 && 0 <= r < p
    ensures r == a % p <==> Cong(r, a, p)
  {
    ModUnique(r, 0, r, p);
  }

  /** x is the third root on a line of slope l = w/v: by the slope, and without division. */
  lemma ThirdRoot(l: int, v: int, w: int, s: int, x: int, p: int)
    requires Prime(p) && v % p != 0 && Cong(l * v, w, p) && 0 <= x < p
    ensures x == (l * l - s) % p <==> Cong((s + x) * (v * v), w * w, p)
  {
    ResidueOf(x, l * l - s, p);
    Shifted(x, l * l - s, s, p);
    FactorOut(x + s, l * l, v, p);
    FactorOut((x + s) * v, l * l * v, v, p);
    CongMul(l * v, w, l * v, w, p);
    assert (x + s) * v * v == (s + x) * (v * v);
    assert l * l * v * v == (l * v) * (l * v);
  }

  /** y is the mirrored ordinate at x on the line through (x1, y1). */
  lemma MirroredOrdinate(l: int, v: int, w: int, x1: int, y1: int, x: int, y: int, p: int)
    requires Prime(p) && v % p != 0 && Cong(l * v, w, p) && 0 <= y < p
    ensures y == (l * (x1 - x) - y1) % p <==> Cong((y + y1) * v, w * (x1 - x), p)
  {
    ResidueOf(y, l * (x1 - x) - y1, p);
    Shifted(y, l * (x1 - x) - y1, y1, p);
    FactorOut(y + y1, l * (x1 - x), v, p);
    CongMul(l * v, w, x1 - x, x1 - x, p);
    assert l * (x1 - x) * v == (l * v) * (x1 - x);
  }

  lemma SlopeDefines(num: int, den: int, p: int)
    requires OddPrime(p) && den % p != 0
    ensures Cong(Slope(num, den, p) * den, num, p)
  {
    var l := Slope(num, den, p);
    SlopeEquation(num % p, den % p, p);
    CongMod(den, p);
    CongMod(num, p);
    CongMul(l, l, den % p, den, p);
  }

  /** The chord: (x3, y3) is the sum exactly when (x3, -y3) lies on the line through the operands
      and x1 + x2 + x3 is the square of its slope. */
  lemma ChordSumIff(x1: int, y1: int, x2: int, y2: int, x3: int, y3: int, p: int)
    requires OddPrime(p) && 0 <= x1 < p && 0 <= x2 < p && 0 <= y1 < p && x1 != x2
    requires 0 <= x3 < p && 0 <= y3 < p
    ensures PointAdd(x1, y1, x2, y2, p) == Affine(x3, y3)
       <==> Cong((x1 + x2 + x3) * ((x2 - x1) * (x2 - x1)), (y2 - y1) * (y2 - y1), p)
            && Cong((y3 + y1) * (x2 - x1), (y2 - y1) * (x1 - x3), p)
  {
    var l := ChordSlope(x1, y1, x2, y2, p);
    DifferenceNonZero(x1, x2, p);
    SlopeDefines(y2 - y1, x2 - x1, p);
    ThirdRoot(l, x2 - x1, y2 - y1, x1 + x2, x3, p);
    MirroredOrdinate(l, x2 - x1, y2 - y1, x1, y1, x3, y3, p);
    assert l * l - x1 - x2 == l * l - (x1 + x2);
  }

  lemma SquareResidue(x: int, p: int)
    requires p > 0
    ensures Cong((x * x) % p * 3 + 0, 3 * (x * x), p)
  {
    CongMod(x * x, p);
    CongMul((x * x) % p, x * x, 3, 3, p);
  }

  lemma TangentDefines(x: int, y: int, p: int)
    requires OddPrime(p) && 0 < y < p
    ensures (y * 2) % p != 0 && Cong(TangentSlope(x, y, p) * (y * 2), 3 * (x * x), p)
  {
    DoubledNonZero(y, p);
    SlopeDefines((x * x) % p * 3 + 0, y * 2, p);
    SquareResidue(x, p);
  }

  /** The tangent, likewise. */
  lemma TangentSumIff(x: int, y: int, x3: int, y3: int, p: int)
    requires OddPrime(p) && 0 <= x < p && 0 < y < p && 0 <= x3 < p && 0 <= y3 < p
    ensures PointDouble(x, y, p) == Affine(x3, y3)
       <==> Cong((x + x + x3) * ((y * 2) * (y * 2)), (3 * (x * x)) * (3 * (x * x)), p)
            && Cong((y3 + y) * (y * 2), 3 * (x * x) * (x - x3), p)
  {
    var l := TangentSlope(x, y, p);
    TangentDefines(x, y, p);
    ThirdRoot(l, y * 2, 3 * (x * x), x + x, x3, p);
    MirroredOrdinate(l, y * 2, 3 * (x * x), x, y, x3, y3, p);
    assert l * l - x * 2 == l * l - (x + x);
  }

  // ----- Adding the negative undoes adding -----

  /** Three points (x1, y1), (x2, y2), (x3, -y3) on one line of slope l that meets the curve there. */
  predicate Collinear(x1: int, y1: int, x2: int, y2: int, x3: int, y3: int, l: int, p: int)
    requires p > 0
  {
    && Cong(x1 + x2 + x3, l * l, p)
    && Cong(y1 + y3, l * (x1 - x3), p) && Cong(y2 + y3, l * (x2 - x3), p)
  }

  lemma SumCollinear(x1: int, y1: int, s: int, l: int, x2: int, y2: int, x3: int, y3: int, p: int)
    requires p > 0 && s == x1 + x2 && Cong(y2 - y1, l * (x2 - x1), p)
    requires x3 == (l * l - s) % p && y3 == (l * (x1 - x3) - y1) % p
    ensures Collinear(x1, y1, x2, y2, x3, y3, l, p)
  {
    CongMod(l * l - s, p);
    Shifted(x3, l * l - s, s, p);
    CongMod(l * (x1 - x3) - y1, p);
    Shifted(y3, l * (x1 - x3) - y1, y1, p);
    CongAdd(y1 + y3, l * (x1 - x3), y2 - y1, l * (x2 - x1), p);
    assert l * (x1 - x3) + l * (x2 - x1) == l * (x2 - x3);
  }

  lemma NegatedResidue(y: int, p: int)
    requires p > 0
    ensures 0 <= (-y) % p < p && Cong((-y) % p, -y, p)
  {
    CongMod(-y, p);
  }

  /** Back along the same line: the sum and the second operand's mirror image meet the first. */
  lemma BackAlongChord(x1: int, y1: int, x2: int, y2: int, x3: int, y3: int, l: int, p: int)
    requires OddPrime(p) && Collinear(x1, y1, x2, y2, x3, y3, l, p) && x3 != x2
    requires 0 <= x1 < p && 0 <= y1 < p && 0 <= x2 < p && 0 <= x3 < p && 0 <= y3 < p
    ensures PointAdd(x3, y3, x2, (-y2) % p, p) == Affine(x1, y1)
  {
    var n, v, d := (-y2) % p, x2 - x3, x1 - x3;
    BackSlope(y2, y3, n, l * v, p);
    BackRoot(x1 + x2 + x3, l, v, n - y3, p);
    BackLine(y1 + y3, l, v, d, n - y3, p);
    assert -(n - y3) * d == (n - y3) * (x3 - x1) by { assert x3 - x1 == -d; NegatedFactors(n - y3, -d); }
    assert x3 + x2 + x1 == x1 + x2 + x3;
    ChordSumIff(x3, y3, x2, n, x1, y1, p);
  }

  lemma BackSlope(y2: int, y3: int, n: int, lv: int, p: int)
    requires p > 0 && n == (-y2) % p && Cong(y2 + y3, lv, p)
    ensures Cong(lv, 0 - (n - y3), p)
  {
    NegatedResidue(y2, p);
    CongAdd(y2 + y3, lv, n, -y2, p);
    Shifted(y3 - n, lv, y2, p);
  }

  lemma NegatedFactors(a: int, d: int)
    ensures -a * -d == a * d
  {
  }

  lemma Rotate(l: int, v: int, d: int)
    ensures l * v * d == l * d * v
  {
  }

  lemma BackRoot(s: int, l: int, m: int, w: int, p: int)
    requires p > 0 && Cong(s, l * l, p) && Cong(l * m, 0 - w, p)
    ensures Cong(s * (m * m), w * w, p)
  {
    CongMul(s, l * l, m * m, m * m, p);
    CongMul(l * m, 0 - w, l * m, 0 - w, p);
    assert (l * m) * (l * m) == l * l * (m * m);
    NegatedFactors(w, w);
  }

  lemma BackLine(y: int, l: int, m: int, d: int, w: int, p: int)
    requires p > 0 && Cong(y, l * d, p) && Cong(l * m, 0 - w, p)
    ensures Cong(y * m, -w * d, p)
  {
    CongMul(y, l * d, m, m, p);
    CongMul(l * m, 0 - w, d, d, p);
    Rotate(l, m, d);
  }

  /** The same where the line touches the curve at the second operand. */
  lemma BackAlongTangent(x1: int, y1: int, x2: int, y2: int, y3: int, l: int, p: int)
    requires OddPrime(p) && Collinear(x1, y1, x2, y2, x2, y3, l, p) && Cong(3 * (x2 * x2), l * (y2 * 2), p)
    requires 0 <= x1 < p && 0 <= y1 < p && 0 <= x2 < p && 0 < y2 < p && 0 <= y3 < p
    ensures y3 == (-y2) % p && PointDouble(x2, y3, p) == Affine(x1, y1)
  {
    MirrorImage(x2, y2, y3, l, p);
    var m, d := y3 * 2, x1 - x2;
    CongMul(y3, -y2, 2, 2, p);
    CongMul(l, l, m, -y2 * 2, p);
    CongAdd(0, 0, l * (y2 * 2), 3 * (x2 * x2), p);
    assert l * (-y2 * 2) == 0 - l * (y2 * 2);
    assert Cong(l * m, 0 - 3 * (x2 * x2), p);
    BackRoot(x1 + x2 + x2, l, m, 3 * (x2 * x2), p);
    BackLine(y1 + y3, l, m, d, 3 * (x2 * x2), p);
    assert 3 * (x2 * x2) * (x2 - x1) == -(3 * (x2 * x2)) * d by { NegatedFactors(3 * (x2 * x2), d); }
    assert x2 + x2 + x1 == x1 + x2 + x2;
    TangentSumIff(x2, y3, x1, y1, p);
  }

  lemma MirrorImage(x2: int, y2: int, y3: int, l: int, p: int)
    requires OddPrime(p) && 0 < y2 < p && 0 <= y3 < p && Cong(y2 + y3, l * (x2 - x2), p)
    ensures y3 == (-y2) % p && 0 < y3 && Cong(y3, -y2, p)
  {
    assert l * (x2 - x2) == 0;
    Shifted(y3, -y2, y2, p);
    ResidueOf(y3, -y2, p);
    NegatedResidue(y2, p);
    ModUnique(-y2, -1, p - y2, p);
  }

  /** A chord that meets the curve again at its second point touches it there. */
  lemma ChordTouches(x1: int, y1: int, x2: int, y2: int, l: int, b: int, p: int)
    requires OddPrime(p) && 0 <= x1 < p && 0 <= x2 < p && x1 != x2
    requires Cong(y1 * y1, x1 * x1 * x1 + b, p) && Cong(y2 * y2, x2 * x2 * x2 + b, p)
    requires Cong(y1 - y2, l * (x1 - x2), p) && Cong(x1 + x2 + x2, l * l, p)
    ensures Cong(3 * (x2 * x2), l * (y2 * 2), p)
  {
    var d, q := x1 - x2, x1 * x1 + x1 * x2 + x2 * x2;
    var z := y2 + l * d;
    CongAdd(y1 - y2, l * d, y2, y2, p);
    CongMul(y1, z, y1, z, p);
    CongAdd(y1 * y1, x1 * x1 * x1 + b, y2 * y2, x2 * x2 * x2 + b, p);
    CongAdd(y1 * y1, z * z, y2 * y2, y2 * y2, p);
    CubesDiffer(x1, x2);
    LineDiffers(y2, l, d);
    assert Cong((l * (y2 * 2) + l * l * d) * d, q * d, p);
    DifferenceNonZero(x2, x1, p);
    FactorOut(l * (y2 * 2) + l * l * d, q, d, p);
    CongMul(x1 + x2 + x2, l * l, d, d, p);
    CongAdd(l * (y2 * 2) + l * l * d, q, l * l * d, (x1 + x2 + x2) * d, p);
    Remainder(x1, x2);
  }

  lemma CubesDiffer(a: int, c: int)
    ensures (a * a + a * c + c * c) * (a - c) == a * a * a - c * c * c
  {
    assert (a * a + a * c + c * c) * a == a * a * a + a * a * c + a * c * c;
    assert (a * a + a * c + c * c) * c == a * a * c + a * c * c + c * c * c;
  }

  lemma LineDiffers(y: int, l: int, d: int)
    ensures (y + l * d) * (y + l * d) - y * y == (l * (y * 2) + l * l * d) * d
  {
    SquareOfSum(y, l * d);
    assert (l * (y * 2)) * d == 2 * (y * (l * d));
    assert (l * l * d) * d == (l * d) * (l * d);
  }

  lemma Remainder(a: int, c: int)
    ensures a * a + a * c + c * c - (a + c + c) * (a - c) == 3 * (c * c)
  {
    assert (a + c + c) * (a - c) == a * a + c * a + c * a - a * c - c * c - c * c;
  }

  /** Off the singular curve a line is never tangent at an ordinate of zero. */
  lemma NoVerticalTangent(x: int, b: int, p: int)
    requires OddPrime(p) && p > 3 && b % p != 0 && Cong(0, x * x * x + b, p)
    ensures !Cong(3 * (x * x), 0, p)
  {
    ModUnique(0, 0, 0, p);
    ModUnique(3, 0, 3, p);
    if Cong(3 * (x * x), 0, p) {
      Euclid(3, x * x, p);
      Euclid(x, x, p);
      CongMul(x, 0, x * x, x * x, p);
      assert x * (x * x) == x * x * x;
      CongAdd(0, x * x * x + b, x * x * x, 0, p);
      CongAdd(x * x * x + b, 0, x * x * x, 0, p);
    }
  }

  /** Distinct abscissas. */
  lemma ChordUndone(x1: int, y1: int, x2: int, y2: int, b: int, p: int)
    requires OddPrime(p) && p > 3 && b % p != 0 && x1 != x2
    requires OnCurve(Affine(x1, y1), b, p) && OnCurve(Affine(x2, y2), b, p)
    ensures var r := PointAdd(x1, y1, x2, y2, p);
            r.Affine? && PointAdd(r.x, r.y, x2, (-y2) % p, p) == Affine(x1, y1)
  {
    var l, r := ChordSlope(x1, y1, x2, y2, p), PointAdd(x1, y1, x2, y2, p);
    ChordDefect(x1, y1, x2, y2, b, p);
    SumCollinear(x1, y1, x1 + x2, l, x2, y2, r.x, r.y, p);
    NegatedResidue(y2, p);
    if r.x != x2 {
      BackAlongChord(x1, y1, x2, y2, r.x, r.y, l, p);
    } else {
      CongAdd(0, 0, y2 - y1, l * (x2 - x1), p);
      assert -(l * (x2 - x1)) == l * (x1 - x2);
      ChordTouches(x1, y1, x2, y2, l, b, p);
      if y2 == 0 { assert l * (y2 * 2) == 0; NoVerticalTangent(x2, b, p); assert false; }
      BackAlongTangent(x1, y1, x2, y2, r.y, l, p);
    }
  }

  /** One point twice. */
  lemma DoubleUndone(x: int, y: int, b: int, p: int)
    requires OddPrime(p) && OnCurve(Affine(x, y), b, p) && y != 0
    ensures var r := PointDouble(x, y, p);
            r.Affine? && PointAdd(r.x, r.y, x, (-y) % p, p) == Affine(x, y)
  {
    var l, r := TangentSlope(x, y, p), PointDouble(x, y, p);
    TangentDefines(x, y, p);
    assert l * (x - x) == 0;
    SumCollinear(x, y, x + x, l, x, y, r.x, r.y, p);
    if r.x != x {
      BackAlongChord(x, y, x, y, r.x, r.y, l, p);
    } else {
      BackAlongTangent(x, y, x, y, r.y, l, p);
    }
  }

  /** Adding a point's negative undoes adding the point, for all points of the curve, and without
      associativity: the sum is the one point that does. */
  lemma AddUndone(s: Point, t: Point, b: int, p: int)
    requires OddPrime(p) && p > 3 && b % p != 0 && OnCurve(s, b, p) && OnCurve(t, b, p)
    ensures OnCurve(Add(s, t, p), b, p) && OnCurve(Negate(t, p), b, p)
    ensures Add(Add(s, t, p), Negate(t, p), p) == s
  {
    AddOnCurve(s, t, b, p);
    AddIdentityIff(t, t, b, p);
    AddIdentityIff(s, t, b, p);
    if s.Infinity? {
      AddIdentityIff(t, Negate(t, p), b, p);
    } else if t.Affine? && Add(s, t, p).Infinity? {
      NegatedTwice(s, b, p);
    } else if t.Affine? {
      if s.x != t.x { ChordUndone(s.x, s.y, t.x, t.y, b, p); } else { DoubleUndone(s.x, s.y, b, p); }
    }
  }

  lemma NegatedTwice(s: Point, b: int, p: int)
    requires OddPrime(p) && OnCurve(s, b, p)
    ensures Negate(Negate(s, p), p) == s
  {
    NegateOnCurve(s, b, p);
    NegateOnCurve(Negate(s, p), b, p);
  }

  /** So sums cancel, and u = s + t exactly when s = u - t. */
  lemma SubtractionIff(s: Point, t: Point, u: Point, b: int, p: int)
    requires OddPrime(p) && p > 3 && b % p != 0 && OnCurve(s, b, p) && OnCurve(t, b, p) && OnCurve(u, b, p)
    ensures Add(s, t, p) == u <==> Difference(u, t, p) == s
  {
    AddUndone(s, t, b, p);
    AddIdentityIff(t, t, b, p);
    AddUndone(u, Negate(t, p), b, p);
    NegatedTwice(t, b, p);
  }
}
