/** The affine group law of y^2 = x^3 + b over GF(p), as the simulator's ECMath computes it. */
module Curve {
  import opened Modular

  /** A G1 point; the Java code uses null for Infinity. */
  datatype Point = Infinity | Affine(x: int, y: int)

  /** Odd prime fields: both curves have huge prime moduli; the formulas divide by 2y. */
  ghost predicate OddPrime(p: int) {
    Prime(p) && p > 2
  }

  predicate Canonical(pt: Point, p: int) {
    pt.Affine? ==> 0 <= pt.x < p && 0 <= pt.y < p
  }

  /** Infinity, or a canonical solution of the curve equation. */
  predicate OnCurve(pt: Point, b: int, p: int)
    requires p > 0
  {
    Canonical(pt, p) && (pt.Affine? ==> Cong(pt.y * pt.y, pt.x * pt.x * pt.x + b, p))
  }

  // ----- Formulas -----

  lemma DoubledNonZero(y: int, p: int)
    requires OddPrime(p) && 0 < y < p
    ensures 0 < (y * 2) % p < p
  {
    assert p % 2 != 0;
    if (y * 2) % p == 0 {
      SmallMultiple(y * 2, p);
    }
  }

  lemma DifferenceNonZero(x1: int, x2: int, p: int)
    requires p > 0 && 0 <= x1 < p && 0 <= x2 < p && x1 != x2
    ensures 0 < (x2 - x1) % p < p && (x2 - x1) % p != 0
  {
    ModUnique(x2 - x1, if x2 > x1 then 0 else -1, if x2 > x1 then x2 - x1 else x2 - x1 + p, p);
  }

  /** A quotient modulo p, computed with modInverse. */
  function Slope(num: int, den: int, p: int): int
    requires OddPrime(p) && den % p != 0
  {
    (num % p * ModInverse(den % p, p)) % p
  }

  function TangentSlope(x: int, y: int, p: int): int
    requires OddPrime(p) && 0 < y < p
  {
    DoubledNonZero(y, p);
    Slope((x * x) % p * 3 + 0, y * 2, p)
  }

  function ChordSlope(x1: int, y1: int, x2: int, y2: int, p: int): int
    requires OddPrime(p) && 0 <= x1 < p && 0 <= x2 < p && x1 != x2
  {
    DifferenceNonZero(x1, x2, p);
    Slope(y2 - y1, x2 - x1, p)
  }

  function PointDouble(x: int, y: int, p: int): Point
    requires OddPrime(p) && 0 <= y < p
  {
    if y == 0 then Infinity else
    var lambda := TangentSlope(x, y, p);
    var x3 := (lambda * lambda - x * 2) % p;
    Affine(x3, (lambda * (x - x3) - y) % p)
  }

  function PointAdd(x1: int, y1: int, x2: int, y2: int, p: int): Point
    requires OddPrime(p) && 0 <= x1 < p && 0 <= x2 < p && 0 <= y1 < p
  {
    if x1 == x2 then
      if y1 == y2 then PointDouble(x1, y1, p) else Infinity
    else
      var lambda := ChordSlope(x1, y1, x2, y2, p);
      var x3 := (lambda * lambda - x1 - x2) % p;
      Affine(x3, (lambda * (x1 - x3) - y1) % p)
  }

  /** The sum of two points, identity included (ecPointAdd without the byte handling). */
  function Add(s: Point, t: Point, p: int): Point
    requires OddPrime(p) && Canonical(s, p) && Canonical(t, p)
  {
    match (s, t)
    case (Infinity, _) => t
    case (_, Infinity) => s
    case (Affine(x1, y1), Affine(x2, y2)) => PointAdd(x1, y1, x2, y2, p)
  }

  function Negate(s: Point, p: int): Point
    requires p > 0
  {
    if s.Infinity? then Infinity else Affine(s.x, (-s.y) % p)
  }

  // ----- Closure -----

  /** A quotient computed with modInverse satisfies its defining equation. */
  lemma SlopeEquation(num: int, den: int, p: int)
    requires OddPrime(p) && 0 < den < p
    ensures Cong((num * ModInverse(den, p)) % p * den, num, p)
  {
    var i := ModInverse(den, p);
    Associate(num, i, den);
    CongMod(num * i, p);
    CongMul((num * i) % p, num * i, den, den, p);
    ModUnique(1, 0, 1, p);
    CongMul(num, num, den * i, 1, p);
  }

  lemma Associate(a: int, b: int, c: int)
    ensures a * b * c == a * (c * b)
  {
  }

  /** How far the line of slope l through (x1,y1) is from meeting the curve at x2 again. */
  function Defect(x1: int, y1: int, x2: int, l: int): int {
    3 * (x1 * x1) - 2 * (l * y1) + (x2 - x1) * (2 * x1 + x2 - l * l)
  }

  lemma DefectIdentity(x1: int, y1: int, x2: int, l: int)
    ensures (x2 - x1) * Defect(x1, y1, x2, l)
         == (x2 * x2 * x2 - (y1 + l * (x2 - x1)) * (y1 + l * (x2 - x1))) - (x1 * x1 * x1 - y1 * y1)
  {
    var v := x2 - x1;
    CubeOfSum(x1, v);
    SquareOfSum(l * v, y1);
    NegatedSquare(l, v, y1);
    DefectExpanded(x1, l * y1, v, l * l);
    assert l * y1 * v == l * v * y1;
  }

  lemma DefectExpanded(x1: int, ly: int, v: int, ll: int)
    ensures v * (3 * (x1 * x1) - 2 * ly + v * (3 * x1 + v - ll))
         == 3 * (x1 * x1 * v) - 2 * (ly * v) + 3 * (x1 * v * v) + v * v * v - ll * v * v
  {
    assert v * (v * (3 * x1 + v - ll)) == 3 * (x1 * v * v) + v * v * v - ll * v * v;
  }

  lemma ThirdPointIdentity(x1: int, y1: int, x2: int, l: int)
    ensures var x3 := l * l - x1 - x2;
            var y3 := l * (x1 - x3) - y1;
            x3 * x3 * x3 - y3 * y3 == (x1 * x1 * x1 - y1 * y1) + (x3 - x1) * Defect(x1, y1, x2, l)
  {
    var x3 := l * l - x1 - x2;
    var u := x3 - x1;
    CubeOfSum(x1, u);
    SquareOfSum(l * u, y1);
    NegatedSquare(l, u, y1);
    SlopeSquared(l * l, x1, u, x2 - x1);
    DefectTimes(x1, y1, x2, l, u);
  }

  lemma NegatedSquare(l: int, u: int, y: int)
    ensures (l * -u - y) * (l * -u - y) == (l * u + y) * (l * u + y)
    ensures (l * u) * (l * u) == l * l * u * u && (l * u) * y == l * y * u
  {
    assert l * -u - y == -(l * u + y);
  }

  lemma DefectTimes(x1: int, y1: int, x2: int, l: int, u: int)
    requires u == l * l - 2 * x1 - x2
    ensures u * Defect(x1, y1, x2, l)
         == 3 * (x1 * x1 * u) - 2 * (l * y1 * u) - (x2 - x1) * u * u
  {
    assert (x2 - x1) * (2 * x1 + x2 - l * l) == -((x2 - x1) * u);
  }

  lemma CubeOfSum(a: int, u: int)
    ensures (a + u) * (a + u) * (a + u) == a * a * a + 3 * (a * a * u) + 3 * (a * u * u) + u * u * u
  {
  }

  lemma SquareOfSum(a: int, u: int)
    ensures (a + u) * (a + u) == a * a + 2 * (a * u) + u * u
  {
  }

  lemma SlopeSquared(ll: int, x1: int, u: int, v: int)
    requires ll == 3 * x1 + v + u
    ensures ll * u * u == 3 * (x1 * u * u) + v * u * u + u * u * u
  {
  }

  /** A line that meets the curve at (x1,y1) with no defect at x2 meets it again at x3. */
  lemma ThirdPoint(x1: int, y1: int, x2: int, l: int, b: int, p: int)
    requires p > 0 && Cong(y1 * y1, x1 * x1 * x1 + b, p) && Cong(Defect(x1, y1, x2, l), 0, p)
    ensures var x3 := (l * l - x1 - x2) % p;
            OnCurve(Affine(x3, (l * (x1 - x3) - y1) % p), b, p)
  {
    var x := l * l - x1 - x2;
    var y := l * (x1 - x) - y1;
    ThirdPointIdentity(x1, y1, x2, l);
    var j := CongElim(y1 * y1, x1 * x1 * x1 + b, p);
    var k := CongElim(Defect(x1, y1, x2, l), 0, p);
    Combine(y * y, x * x * x, b, x1 * x1 * x1, y1 * y1, x - x1, Defect(x1, y1, x2, l), j, k, p);
    Reduced(x, y, l, x1, y1, b, p);
  }

  lemma Combine(yy: int, xxx: int, b: int, xxx1: int, yy1: int, u: int, d: int, j: int, k: int, p: int)
    requires p > 0 && xxx - yy == (xxx1 - yy1) + u * d && yy1 == xxx1 + b + j * p && d == 0 + k * p
    ensures Cong(yy, xxx + b, p)
  {
    assert u * d == (u * k) * p;
    CongIntro(yy, xxx + b, j - u * k, p);
  }

  /** Replacing x by its residue before computing y, and y by its residue, stays on the curve. */
  lemma Reduced(x: int, y: int, l: int, x1: int, y1: int, b: int, p: int)
    requires p > 0 && y == l * (x1 - x) - y1 && Cong(y * y, x * x * x + b, p)
    ensures OnCurve(Affine(x % p, (l * (x1 - x % p) - y1) % p), b, p)
  {
    var x3 := x % p;
    var y3 := l * (x1 - x3) - y1;
    CongMod(x, p);
    CongAdd(x1, x1, x3, x, p);
    CongMul(l, l, x1 - x3, x1 - x, p);
    CongAdd(l * (x1 - x3), l * (x1 - x), y1, y1, p);
    CongMod(y3, p);
    CongMul(y3 % p, y, y3 % p, y, p);
    CongMul(x3, x, x3, x, p);
    CongMul(x3 * x3, x * x, x3, x, p);
    CongAdd(x3 * x3 * x3, x * x * x, b, b, p);
  }

  lemma DoubleOnCurve(x: int, y: int, b: int, p: int)
    requires OddPrime(p) && OnCurve(Affine(x, y), b, p)
    ensures OnCurve(PointDouble(x, y, p), b, p)
  {
    if y != 0 {
      var l := TangentSlope(x, y, p);
      TangentDefect(x, y, p);
      ThirdPoint(x, y, x, l, b, p);
    }
  }

  lemma TangentDefect(x: int, y: int, p: int)
    requires OddPrime(p) && 0 < y < p
    ensures Cong(Defect(x, y, x, TangentSlope(x, y, p)), 0, p)
  {
    var l := TangentSlope(x, y, p);
    var num, den := ((x * x) % p * 3) % p, (y * 2) % p;
    DoubledNonZero(y, p);
    SlopeEquation(num, den, p);
    CongMod(y * 2, p);
    CongMul(l, l, den, y * 2, p);
    TripleSquare(x, p);
    CongAdd(x * x * 3, l * (y * 2), l * (y * 2), l * (y * 2), p);
    TangentIdentity(x, y, l);
  }

  lemma TripleSquare(x: int, p: int)
    requires p > 0
    ensures Cong(((x * x) % p * 3) % p, x * x * 3, p)
  {
    CongMod(x * x, p);
    CongMul((x * x) % p, x * x, 3, 3, p);
    CongMod((x * x) % p * 3, p);
  }

  lemma TangentIdentity(x: int, y: int, l: int)
    ensures x * x * 3 - l * (y * 2) == Defect(x, y, x, l)
  {
    assert (x - x) * (2 * x + x - l * l) == 0;
  }

  lemma ChordDefect(x1: int, y1: int, x2: int, y2: int, b: int, p: int)
    requires OddPrime(p) && x1 != x2
    requires OnCurve(Affine(x1, y1), b, p) && OnCurve(Affine(x2, y2), b, p)
    ensures var l := ChordSlope(x1, y1, x2, y2, p);
            Cong(l * (x2 - x1), y2 - y1, p) && Cong(Defect(x1, y1, x2, l), 0, p)
  {
    var l := ChordSlope(x1, y1, x2, y2, p);
    var v, z := x2 - x1, y1 + l * (x2 - x1);
    DifferenceNonZero(x1, x2, p);
    SlopeEquation((y2 - y1) % p, v % p, p);
    CongMod(v, p);
    CongMod(y2 - y1, p);
    CongMul(l, l, v % p, v, p);
    CongAdd(y1, y1, l * v, y2 - y1, p);
    CongMul(z, y2, z, y2, p);
    CongAdd(x2 * x2 * x2 + b, y2 * y2, z * z, y2 * y2, p);
    CongAdd(x1 * x1 * x1 + b, y1 * y1, y1 * y1, y1 * y1, p);
    CongAdd(x2 * x2 * x2 + b - z * z, 0, x1 * x1 * x1 + b - y1 * y1, 0, p);
    DefectIdentity(x1, y1, x2, l);
    ModUnique(0, 0, 0, p);
    Euclid(v, Defect(x1, y1, x2, l), p);
  }

  lemma AddOnCurve(s: Point, t: Point, b: int, p: int)
    requires OddPrime(p) && OnCurve(s, b, p) && OnCurve(t, b, p)
    ensures OnCurve(Add(s, t, p), b, p)
  {
    if s.Affine? && t.Affine? {
      if s.x != t.x {
        ChordDefect(s.x, s.y, t.x, t.y, b, p);
        ThirdPoint(s.x, s.y, t.x, ChordSlope(s.x, s.y, t.x, t.y, p), b, p);
      } else if s.y == t.y {
        DoubleOnCurve(s.x, s.y, b, p);
      }
    }
  }

  // ----- Commutativity and inverses -----

  lemma Symmetric(x1: int, y1: int, x2: int, y2: int, b: int, p: int)
    requires OddPrime(p) && x1 != x2
    requires OnCurve(Affine(x1, y1), b, p) && OnCurve(Affine(x2, y2), b, p)
    ensures ChordSlope(x1, y1, x2, y2, p) == ChordSlope(x2, y2, x1, y1, p)
    ensures PointAdd(x1, y1, x2, y2, p) == PointAdd(x2, y2, x1, y1, p)
  {
    var l, m := ChordSlope(x1, y1, x2, y2, p), ChordSlope(x2, y2, x1, y1, p);
    var v, w := x2 - x1, y2 - y1;
    ChordDefect(x1, y1, x2, y2, b, p);
    ChordDefect(x2, y2, x1, y1, b, p);
    CongAdd(0, 0, m * -v, -w, p);
    assert 0 - m * -v == m * v;
    assert Cong(m * v, w, p);
    DifferenceNonZero(x1, x2, p);
    Cancel(l, m, v, p);
    CongSmall(l, m, p);
    SameOrdinate(l, x1, y1, x2, y2, (l * l - x1 - x2) % p, p);
  }

  lemma SameOrdinate(l: int, x1: int, y1: int, x2: int, y2: int, x3: int, p: int)
    requires p > 0 && Cong(l * (x2 - x1), y2 - y1, p)
    ensures Cong(l * (x1 - x3) - y1, l * (x2 - x3) - y2, p)
  {
    var k := CongElim(l * (x2 - x1), y2 - y1, p);
    assert l * (x1 - x3) - l * (x2 - x3) == -(l * (x2 - x1));
    CongIntro(l * (x1 - x3) - y1, l * (x2 - x3) - y2, -k, p);
  }

  /** The computed sum does not depend on the order of the operands. */
  lemma AddCommutes(s: Point, t: Point, b: int, p: int)
    requires OddPrime(p) && OnCurve(s, b, p) && OnCurve(t, b, p)
    ensures Add(s, t, p) == Add(t, s, p)
  {
    if s.Affine? && t.Affine? && s.x != t.x {
      Symmetric(s.x, s.y, t.x, t.y, b, p);
    }
  }

  lemma NegateOnCurve(s: Point, b: int, p: int)
    requires OddPrime(p) && OnCurve(s, b, p)
    ensures OnCurve(Negate(s, p), b, p)
    ensures s.Affine? ==> Negate(s, p).y == if s.y == 0 then 0 else p - s.y
  {
    if s.Affine? {
      var n := (-s.y) % p;
      CongMod(-s.y, p);
      CongMul(n, -s.y, n, -s.y, p);
      assert -s.y * -s.y == s.y * s.y;
      ModUnique(-s.y, if s.y == 0 then 0 else -1, if s.y == 0 then 0 else p - s.y, p);
    }
  }

  /** Two points add up to the identity exactly when one is the other's negative. */
  lemma AddIdentityIff(s: Point, t: Point, b: int, p: int)
    requires OddPrime(p) && OnCurve(s, b, p) && OnCurve(t, b, p)
    ensures OnCurve(Negate(s, p), b, p)
    ensures Add(s, t, p).Infinity? <==> t == Negate(s, p)
  {
    NegateOnCurve(s, b, p);
    if s.Affine? && t.Affine? && t.x == s.x {
      TwoRoots(t.y, s.y, p);
      assert p % 2 != 0;
    }
  }

  // ----- Multiples -----

  /** The k-fold sum of a point. */
  ghost function Multiple(k: nat, s: Point, p: int): (m: Point)
    requires OddPrime(p) && Canonical(s, p)
    ensures Canonical(m, p)
  {
    if k == 0 then Infinity else Add(Multiple(k - 1, s, p), s, p)
  }

  /** What left-to-right double-and-add has computed once the bits of k have been consumed. */
  ghost function Ladder(k: nat, s: Point, p: int): (m: Point)
    requires OddPrime(p) && Canonical(s, p)
    ensures Canonical(m, p)
  {
    if k == 0 then Infinity else
      var h := Ladder(k / 2, s, p);
      if k % 2 == 1 then Add(Add(h, h, p), s, p) else Add(h, h, p)
  }

  lemma {:induction false} LadderOnCurve(k: nat, s: Point, b: int, p: int)
    requires OddPrime(p) && OnCurve(s, b, p)
    ensures OnCurve(Ladder(k, s, p), b, p)
  {
    if k > 0 {
      var h := Ladder(k / 2, s, p);
      LadderOnCurve(k / 2, s, b, p);
      AddOnCurve(h, h, b, p);
      AddOnCurve(Add(h, h, p), s, b, p);
    }
  }

  lemma {:induction false} MultipleOnCurve(k: nat, s: Point, b: int, p: int)
    requires OddPrime(p) && OnCurve(s, b, p)
    ensures OnCurve(Multiple(k, s, p), b, p)
  {
    if k > 0 {
      MultipleOnCurve(k - 1, s, b, p);
      AddOnCurve(Multiple(k - 1, s, p), s, b, p);
    }
  }

  /** The one hypothesis about the group law that is not proved here. */
  ghost predicate Associative(b: int, p: int)
    requires OddPrime(p)
  {
    forall s, t, u {:trigger AssociatesAt(s, t, u, p)} ::
      OnCurve(s, b, p) && OnCurve(t, b, p) && OnCurve(u, b, p) ==> AssociatesAt(s, t, u, p)
  }

  ghost predicate AssociatesAt(s: Point, t: Point, u: Point, p: int)
    requires OddPrime(p) && Canonical(s, p) && Canonical(t, p) && Canonical(u, p)
  {
    Add(Add(s, t, p), u, p) == Add(s, Add(t, u, p), p)
  }

  lemma {:induction false} MultipleSum(j: nat, k: nat, s: Point, b: int, p: int)
    requires OddPrime(p) && OnCurve(s, b, p) && Associative(b, p)
    ensures Multiple(j + k, s, p) == Add(Multiple(j, s, p), Multiple(k, s, p), p)
  {
    if k > 0 {
      MultipleSum(j, k - 1, s, b, p);
      MultipleOnCurve(j, s, b, p);
      MultipleOnCurve(k - 1, s, b, p);
      assert AssociatesAt(Multiple(j, s, p), Multiple(k - 1, s, p), s, p);
      assert j + k - 1 == j + (k - 1);
    }
  }

  /** Double-and-add computes the k-fold sum, also through identity partial sums. */
  lemma {:induction false} LadderIsMultiple(k: nat, s: Point, b: int, p: int)
    requires OddPrime(p) && OnCurve(s, b, p) && Associative(b, p)
    ensures Ladder(k, s, p) == Multiple(k, s, p)
  {
    if k > 0 {
      LadderIsMultiple(k / 2, s, b, p);
      MultipleSum(k / 2, k / 2, s, b, p);
    }
  }

  lemma {:induction false} MultipleProduct(j: nat, k: nat, s: Point, b: int, p: int)
    requires OddPrime(p) && OnCurve(s, b, p) && Associative(b, p)
    ensures Multiple(j, Multiple(k, s, p), p) == Multiple(j * k, s, p)
  {
    if j > 0 {
      MultipleProduct(j - 1, k, s, b, p);
      var n := PeelFactor(j, k);
      MultipleSum(n, k, s, b, p);
    }
  }

  lemma PeelFactor(j: nat, k: nat) returns (n: nat)
    requires j > 0
    ensures n == (j - 1) * k && n + k == j * k
  {
    n := (j - 1) * k;
  }

  /** In a point's multiples only the residue of the factor modulo an annihilator counts. */
  lemma {:induction false} MultipleResidue(k: nat, q: nat, s: Point, b: int, p: int)
    requires OddPrime(p) && OnCurve(s, b, p) && Associative(b, p)
    requires q > 0 && Multiple(q, s, p).Infinity?
    ensures Multiple(k, s, p) == Multiple(k % q, s, p)
  {
    var t, r := DivMod(k, q);
    ResidueParts(k, t, r, q, s, b, p);
  }

  lemma {:induction false} ResidueParts(k: nat, t: nat, r: nat, q: nat, s: Point, b: int, p: int)
    requires OddPrime(p) && OnCurve(s, b, p) && Associative(b, p)
    requires Multiple(q, s, p).Infinity? && k == t * q + r
    ensures Multiple(k, s, p) == Multiple(r, s, p)
  {
    var n := NatProduct(t, q);
    Annihilated(t, q, n, s, b, p);
    MultipleShift(n, r, s, b, p);
  }

  lemma Annihilated(t: nat, q: nat, n: nat, s: Point, b: int, p: int)
    requires OddPrime(p) && OnCurve(s, b, p) && Associative(b, p)
    requires Multiple(q, s, p).Infinity? && n == t * q
    ensures Multiple(n, s, p).Infinity?
  {
    MultipleProduct(t, q, s, b, p);
    MultipleOfIdentity(t, p);
  }

  lemma MultipleShift(n: nat, r: nat, s: Point, b: int, p: int)
    requires OddPrime(p) && OnCurve(s, b, p) && Associative(b, p)
    requires Multiple(n, s, p).Infinity?
    ensures Multiple(n + r, s, p) == Multiple(r, s, p)
  {
    MultipleSum(n, r, s, b, p);
  }

  lemma {:induction false} MultipleOfIdentity(k: nat, p: int)
    requires OddPrime(p)
    ensures Multiple(k, Infinity, p).Infinity?
  {
    if k > 0 {
      MultipleOfIdentity(k - 1, p);
    }
  }

  // ----- Cancellation and differences -----

  lemma AddBack(s: Point, t: Point, b: int, p: int)
    requires OddPrime(p) && OnCurve(s, b, p) && OnCurve(t, b, p) && Associative(b, p)
    ensures OnCurve(Negate(t, p), b, p)
    ensures Add(Add(s, t, p), Negate(t, p), p) == s
    ensures Add(Add(s, Negate(t, p), p), t, p) == s
  {
    var n := Negate(t, p);
    AddIdentityIff(t, t, b, p);
    AddIdentityIff(t, n, b, p);
    AddCommutes(t, n, b, p);
    assert AssociatesAt(s, t, n, p) && AssociatesAt(s, n, t, p);
  }

  lemma CancelAdd(s: Point, t: Point, u: Point, b: int, p: int)
    requires OddPrime(p) && OnCurve(s, b, p) && OnCurve(t, b, p) && OnCurve(u, b, p) && Associative(b, p)
    requires Add(s, u, p) == Add(t, u, p)
    ensures s == t
  {
    AddBack(s, u, b, p);
    AddBack(t, u, b, p);
  }

  /** s - t. */
  function Difference(s: Point, t: Point, p: int): Point
    requires OddPrime(p) && Canonical(s, p) && Canonical(t, p)
  {
    NegateCanonical(t, p);
    Add(s, Negate(t, p), p)
  }

  lemma NegateCanonical(t: Point, p: int)
    requires p > 0 && Canonical(t, p)
    ensures Canonical(Negate(t, p), p)
  {
  }

  lemma DifferenceZero(s: Point, t: Point, b: int, p: int)
    requires OddPrime(p) && OnCurve(s, b, p) && OnCurve(t, b, p) && Associative(b, p)
    ensures OnCurve(Difference(s, t, p), b, p) && Add(Difference(s, t, p), t, p) == s
    ensures Difference(s, t, p).Infinity? <==> s == t
  {
    AddBack(s, t, b, p);
    AddOnCurve(s, Negate(t, p), b, p);
    if s == t { CancelAdd(Difference(s, t, p), Infinity, t, b, p); }
  }

  lemma Shuffle(s: Point, t: Point, u: Point, v: Point, b: int, p: int)
    requires OddPrime(p) && Associative(b, p)
    requires OnCurve(s, b, p) && OnCurve(t, b, p) && OnCurve(u, b, p) && OnCurve(v, b, p)
    ensures Canonical(Add(s, t, p), p) && Canonical(Add(u, v, p), p)
    ensures Canonical(Add(s, u, p), p) && Canonical(Add(t, v, p), p)
    ensures Add(Add(s, t, p), Add(u, v, p), p) == Add(Add(s, u, p), Add(t, v, p), p)
  {
    AddOnCurve(s, t, b, p);
    AddOnCurve(s, u, b, p);
    AddOnCurve(u, v, b, p);
    AddOnCurve(t, v, b, p);
    AddCommutes(t, u, b, p);
    assert AssociatesAt(Add(s, t, p), u, v, p) && AssociatesAt(s, t, u, p);
    assert AssociatesAt(s, u, t, p) && AssociatesAt(Add(s, u, p), t, v, p);
  }

  /** Multiples of a sum are sums of multiples. */
  lemma {:induction false} MultipleOfSum(k: nat, s: Point, t: Point, b: int, p: int)
    requires OddPrime(p) && OnCurve(s, b, p) && OnCurve(t, b, p) && Associative(b, p)
    ensures Canonical(Add(s, t, p), p)
    ensures Multiple(k, Add(s, t, p), p) == Add(Multiple(k, s, p), Multiple(k, t, p), p)
  {
    AddOnCurve(s, t, b, p);
    if k > 0 {
      MultipleOfSum(k - 1, s, t, b, p);
      MultipleOnCurve(k - 1, s, b, p);
      MultipleOnCurve(k - 1, t, b, p);
      Shuffle(Multiple(k - 1, s, p), Multiple(k - 1, t, p), s, t, b, p);
    }
  }

  // ----- Points of prime order -----

  /** In a point of prime order q exactly the multiples of q annihilate. */
  lemma PrimeOrder(k: nat, q: nat, s: Point, b: int, p: int)
    requires OddPrime(p) && OnCurve(s, b, p) && Associative(b, p)
    requires Prime(q) && s.Affine? && Multiple(q, s, p).Infinity?
    ensures Multiple(k, s, p).Infinity? <==> k % q == 0
  {
    MultipleResidue(k, q, s, b, p);
    if k % q != 0 {
      Recover(k % q, q, s, b, p);
      MultipleOfIdentity(ModInverse(k % q, q), p);
    }
  }

  /** Multiplying by a non-zero residue can be undone. */
  lemma Recover(r: nat, q: nat, s: Point, b: int, p: int)
    requires OddPrime(p) && OnCurve(s, b, p) && Associative(b, p)
    requires Prime(q) && 0 < r < q && Multiple(q, s, p).Infinity?
    ensures Multiple(ModInverse(r, q), Multiple(r, s, p), p) == s
  {
    var i := ModInverse(r, q);
    MultipleProduct(i, r, s, b, p);
    var n := NatProduct(i, r);
    assert n % q == 1;
    MultipleResidue(n, q, s, b, p);
    assert Multiple(1, s, p) == Add(Multiple(0, s, p), s, p) == s;
  }

  lemma NatProduct(k: nat, v: int) returns (n: nat)
    requires v >= 0
    ensures n == k * v == v * k
  {
    n := k * v;
  }
}
