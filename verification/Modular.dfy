/** Arithmetic modulo an integer: congruence, prime fields, inverses, powers, Fermat's
    little theorem and square roots modulo a prime that is 3 modulo 4. */
module Modular {

  ghost predicate Prime(p: int) {
    p > 1 && forall d {:trigger p % d} :: 1 < d < p ==> p % d != 0
  }

  /** a and b have the same residue modulo m. */
  predicate Cong(a: int, b: int, m: int)
    requires m > 0
  {
    a % m == b % m
  }

  lemma MulAway(d: int, m: int)
    requires m > 0
    ensures d >= 1 ==> d * m >= m
    ensures d <= -1 ==> d * m <= -m
  {
  }

  lemma ModUnique(a: int, k: int, r: int, m: int)
    requires m > 0 && a == k * m + r && 0 <= r < m
    ensures a % m == r && a / m == k
  {
    var d := a / m - k;
    assert r - a % m == d * m;
    MulAway(d, m);
  }

  lemma DivMod(a: nat, m: nat) returns (t: nat, r: nat)
    requires m > 0
    ensures a == t * m + r && r == a % m && t == a / m
  {
    t, r := a / m, a % m;
  }

  lemma QuotientBound(a: nat, k: int, m: int)
    requires m > 0 && a < k * m
    ensures a / m < k
  {
    var t, r := DivMod(a, m);
    MulAway(t - k, m);
    assert (t - k) * m == t * m - k * m;
  }

  lemma CongIntro(a: int, b: int, k: int, m: int)
    requires m > 0 && a == b + k * m
    ensures Cong(a, b, m)
  {
    assert a == (k + b / m) * m + b % m;
    ModUnique(a, k + b / m, b % m, m);
  }

  lemma CongElim(a: int, b: int, m: int) returns (k: int)
    requires m > 0 && Cong(a, b, m)
    ensures a == b + k * m
  {
    k := a / m - b / m;
  }

  lemma CongMod(a: int, m: int)
    requires m > 0
    ensures Cong(a % m, a, m)
  {
    CongIntro(a, a % m, a / m, m);
  }

  lemma CongAdd(a: int, b: int, c: int, d: int, m: int)
    requires m > 0 && Cong(a, b, m) && Cong(c, d, m)
    ensures Cong(a + c, b + d, m) && Cong(a - c, b - d, m)
  {
    var j := CongElim(a, b, m);
    var k := CongElim(c, d, m);
    CongIntro(a + c, b + d, j + k, m);
    CongIntro(a - c, b - d, j - k, m);
  }

  lemma CongMul(a: int, b: int, c: int, d: int, m: int)
    requires m > 0 && Cong(a, b, m) && Cong(c, d, m)
    ensures Cong(a * c, b * d, m)
  {
    var j := CongElim(a, b, m);
    var k := CongElim(c, d, m);
    ShiftedProduct(b, j, d, k, m);
    CongIntro(a * c, b * d, b * k + j * d + j * k * m, m);
  }

  lemma ShiftedProduct(b: int, j: int, d: int, k: int, m: int)
    ensures (b + j * m) * (d + k * m) == b * d + (b * k + j * d + j * k * m) * m
  {
    assert (b + j * m) * (d + k * m) == b * d + b * (k * m) + (j * m) * d + (j * m) * (k * m);
    assert (j * m) * (k * m) == (j * k * m) * m;
    assert b * (k * m) == b * k * m && (j * m) * d == j * d * m;
  }

  /** The residues modulo m are distinct. */
  lemma CongSmall(a: int, b: int, m: int)
    requires m > 0 && Cong(a, b, m) && 0 <= a < m && 0 <= b < m
    ensures a == b
  {
    ModUnique(a, 0, a, m);
    ModUnique(b, 0, b, m);
  }

  /** The product of two residues. */
  function Times(a: int, b: int, m: int): (r: int)
    requires m > 0
    ensures 0 <= r < m
  {
    (a * b) % m
  }

  // ----- Inverses and Euclid's lemma -----

  /** BigInteger.modInverse for a prime modulus and a non-zero residue. */
  function ModInverse(a: int, p: int): (i: int)
    requires Prime(p) && 0 < a < p
    ensures 0 < i < p && (a * i) % p == 1
    decreases a
  {
    if a == 1 then
      ModUnique(1, 0, 1, p); 1
    else
      assert p % a != 0;
      var i := (-(p / a) * ModInverse(p % a, p)) % p;
      InverseStep(a, ModInverse(p % a, p), p);
      i
  }

  lemma InverseStep(a: int, j: int, p: int)
    requires Prime(p) && 1 < a < p && ((p % a) * j) % p == 1
    ensures var i := (-(p / a) * j) % p; 0 < i < p && (a * i) % p == 1
  {
    var k, r, t := p / a, p % a, ((p % a) * j) / p;
    var m, i := (-k * j) / p, (-k * j) % p;
    InverseIdentity(a, k, r, j, m, i, t, p);
    ModUnique(a * i, t - j - a * m, 1, p);
    ModUnique(0, 0, 0, p);
  }

  lemma InverseIdentity(a: int, k: int, r: int, j: int, m: int, i: int, t: int, p: int)
    requires p == k * a + r && -k * j == m * p + i && r * j == t * p + 1
    ensures a * i == (t - j - a * m) * p + 1
  {
    assert a * i == a * (-k * j - m * p) == -((k * a) * j) - a * m * p;
    assert (k * a) * j == (p - r) * j == p * j - r * j;
    assert (t - j - a * m) * p == t * p - j * p - a * m * p;
  }

  lemma Euclid(a: int, b: int, p: int)
    requires Prime(p) && (a * b) % p == 0
    ensures a % p == 0 || b % p == 0
  {
    if a % p != 0 {
      var i := ModInverse(a % p, p);
      CongMod(a, p);
      CongMul(a % p, a, i, i, p);
      ModUnique(1, 0, 1, p);
      CongMul(a * i, 1, b, b, p);       // b = (a i) b = i (a b) = 0
      ModUnique(0, 0, 0, p);
      CongMul(i, i, a * b, 0, p);
      assert a * i * b == i * (a * b);
    }
  }

  /** A common non-zero factor can be cancelled. */
  lemma Cancel(a: int, b: int, c: int, p: int)
    requires Prime(p) && c % p != 0 && Cong(a * c, b * c, p)
    ensures Cong(a, b, p)
  {
    var k := CongElim(a * c, b * c, p);
    assert (a - b) * c == k * p + 0;
    ModUnique((a - b) * c, k, 0, p);
    Euclid(a - b, c, p);
    CongIntro(a, b, (a - b) / p, p);
  }

  // ----- Powers -----

  function Pow(b: int, e: nat): int {
    if e == 0 then 1 else b * Pow(b, e - 1)
  }

  lemma {:induction false} PowAdd(b: int, e: nat, f: nat)
    ensures Pow(b, e + f) == Pow(b, e) * Pow(b, f)
  {
    if e > 0 {
      PowAdd(b, e - 1, f);
      assert Pow(b, e + f) == b * (Pow(b, e - 1) * Pow(b, f));
    }
  }

  lemma {:induction false} PowSquare(b: int, e: nat)
    ensures Pow(b * b, e) == Pow(b, 2 * e)
  {
    if e > 0 {
      PowSquare(b, e - 1);
      assert Pow(b, 2 * e) == b * (b * Pow(b, 2 * e - 2));
    }
  }

  lemma {:induction false} PowCong(a: int, b: int, e: nat, m: int)
    requires m > 0 && Cong(a, b, m)
    ensures Cong(Pow(a, e), Pow(b, e), m)
  {
    if e > 0 {
      PowCong(a, b, e - 1, m);
      CongMul(a, b, Pow(a, e - 1), Pow(b, e - 1), m);
    }
  }

  lemma {:induction false} PowPositive(b: int, e: nat)
    requires b > 0
    ensures Pow(b, e) > 0
  {
    if e > 0 {
      PowPositive(b, e - 1);
    }
  }

  // ----- Fermat's little theorem: the map i -> a*i permutes the non-zero residues -----

  lemma HasElement(s: set<int>)
    ensures s != {} ==> exists x :: x in s
  {
    assert (forall x :: x !in s) ==> s == {};
  }

  ghost function Product(s: set<int>): int {
    if s == {} then 1 else
      HasElement(s);
      var x :| x in s;
      x * Product(s - {x})
  }

  lemma {:induction false} ProductRemove(s: set<int>, x: int)
    requires x in s
    ensures Product(s) == x * Product(s - {x})
    decreases |s|
  {
    HasElement(s);
    var y :| y in s && Product(s) == y * Product(s - {y});
    if y != x {
      ProductRemove(s - {y}, x);
      ProductRemove(s - {x}, y);
      assert s - {y} - {x} == s - {x} - {y};
      SwapFactors(x, y, Product(s - {x} - {y}));
    }
  }

  lemma ProductAdd(s: set<int>, x: int)
    requires x !in s
    ensures Product(s + {x}) == x * Product(s)
  {
    ProductRemove(s + {x}, x);
    assert s + {x} - {x} == s;
  }

  lemma SwapFactors(a: int, b: int, c: int)
    ensures b * (a * c) == a * (b * c)
  {
  }

  ghost function Units(p: nat): (s: set<int>)
    ensures forall i :: i in s <==> 0 < i < p
    ensures |s| == if p == 0 then 0 else p - 1
  {
    if p <= 1 then {} else Units(p - 1) + {p - 1}
  }

  ghost predicate AllUnits(s: set<int>, p: int) {
    forall i :: i in s ==> 0 < i < p
  }

  ghost function Image(a: int, s: set<int>, p: int): set<int>
    requires p > 0
  {
    set i | i in s :: Times(a, i, p)
  }

  /** Multiplication by a unit sends distinct units to distinct units. */
  lemma UnitTimes(a: int, i: int, x: int, p: int)
    requires Prime(p) && 0 < a < p && 0 < i < p && 0 < x < p
    ensures 0 < Times(a, i, p) < p
    ensures i != x ==> Times(a, i, p) != Times(a, x, p)
  {
    ModUnique(a, 0, a, p);
    ModUnique(i, 0, i, p);
    if (a * i) % p == 0 {
      Euclid(a, i, p);
    }
    if (i * a) % p == (x * a) % p {
      Cancel(i, x, a, p);
      CongSmall(i, x, p);
    }
  }

  lemma ImageStep(a: int, s: set<int>, x: int, p: int)
    requires Prime(p) && 0 < a < p && AllUnits(s, p) && x in s
    ensures var y := Times(a, x, p); y !in Image(a, s - {x}, p) && 0 < y < p
    ensures Image(a, s, p) == Image(a, s - {x}, p) + {Times(a, x, p)}
  {
    UnitTimes(a, x, x, p);
    forall i | i in s - {x} ensures Times(a, i, p) != Times(a, x, p) {
      UnitTimes(a, i, x, p);
    }
    assert s == (s - {x}) + {x};
  }

  lemma ProductStep(a: int, x: int, y: int, f: int, g: int, w: int, p: int)
    requires p > 0 && Cong(y, a * x, p) && Cong(f, w * g, p)
    ensures Cong(y * f, (a * w) * (x * g), p)
  {
    CongMul(y, a * x, f, w * g, p);
    assert (a * x) * (w * g) == (a * w) * (x * g);
  }

  lemma {:induction false} ImageProduct(a: int, s: set<int>, p: int)
    requires Prime(p) && 0 < a < p && AllUnits(s, p)
    ensures AllUnits(Image(a, s, p), p) && |Image(a, s, p)| == |s|
    ensures Cong(Product(Image(a, s, p)), Pow(a, |s|) * Product(s), p)
    decreases |s|
  {
    HasElement(s);
    if s != {} {
      var x :| x in s;
      var s', y := s - {x}, Times(a, x, p);
      var t := Image(a, s', p);
      ImageProduct(a, s', p);
      ImageStep(a, s, x, p);
      ProductAdd(t, y);
      ProductRemove(s, x);
      CongMod(a * x, p);
      ProductStep(a, x, y, Product(t), Product(s'), Pow(a, |s'|), p);
    } else {
      assert Image(a, s, p) == {};
    }
  }

  lemma {:induction false} ProductUnit(s: set<int>, p: int)
    requires Prime(p) && AllUnits(s, p)
    ensures Product(s) % p != 0
    decreases |s|
  {
    if s == {} {
      ModUnique(1, 0, 1, p);
    } else {
      HasElement(s);
      var x :| x in s;
      ProductRemove(s, x);
      ProductUnit(s - {x}, p);
      ModUnique(x, 0, x, p);
      if Product(s) % p == 0 { Euclid(x, Product(s - {x}), p); }
    }
  }

  lemma SubsetSameSize(s: set<int>, t: set<int>)
    requires s <= t && |s| == |t|
    ensures s == t
  {
    assert t == s + (t - s) && |t| == |s| + |t - s|;
  }

  lemma FermatResidue(a: int, p: int)
    requires Prime(p) && 0 < a < p
    ensures Cong(Pow(a, p - 1), 1, p)
  {
    var u := Units(p);
    ImageProduct(a, u, p);
    SubsetSameSize(Image(a, u, p), u);
    ProductUnit(u, p);
    Cancel(1, Pow(a, p - 1), Product(u), p);
  }

  /** Fermat's little theorem. */
  lemma Fermat(a: int, p: int)
    requires Prime(p) && a % p != 0
    ensures Cong(Pow(a, p - 1), 1, p)
  {
    FermatResidue(a % p, p);
    CongMod(a, p);
    PowCong(a % p, a, p - 1, p);
  }

  // ----- Square roots -----

  /** For p = 3 (mod 4), v^((p+1)/4) is a square root of every square v = y*y. */
  lemma SquareRoot(y: int, p: int)
    requires Prime(p) && p % 4 == 3
    ensures var w := Pow(y * y, (p + 1) / 4); Cong(w * w, y * y, p)
  {
    var e := (p + 1) / 4;
    var w := Pow(y * y, e);
    PowSquare(y, e);
    PowAdd(y, 2 * e, 2 * e);
    assert 4 * e == (p - 1) + 2;
    PowAdd(y, p - 1, 2);
    assert Pow(y, 2) == y * Pow(y, 1) == y * y;
    assert w * w == Pow(y, p - 1) * (y * y);
    if y % p != 0 {
      Fermat(y, p);
      CongMul(Pow(y, p - 1), 1, y * y, y * y, p);
    } else {
      var f := Pow(y, p - 1);
      ModUnique(0, 0, 0, p);
      CongMul(y, 0, y, 0, p);
      CongMul(f, f, y * y, 0, p);
    }
  }

  /** A residue has at most the two square roots y and p - y. */
  lemma TwoRoots(w: int, y: int, p: int)
    requires Prime(p) && 0 <= w < p && 0 <= y < p && Cong(w * w, y * y, p)
    ensures w == y || w == p - y
  {
    var k := CongElim(w * w, y * y, p);
    DifferenceOfSquares(w, y);
    ModUnique((w - y) * (w + y), k, 0, p);
    Euclid(w - y, w + y, p);
    if (w - y) % p == 0 {
      CongIntro(w, y, (w - y) / p, p);
      CongSmall(w, y, p);
    } else {
      SmallMultiple(w + y, p);
    }
  }

  lemma SmallMultiple(n: int, p: int)
    requires p > 0 && 0 <= n < 2 * p && n % p == 0
    ensures n == 0 || n == p
  {
    if n >= p {
      ModUnique(n, 1, n - p, p);
    } else {
      ModUnique(n, 0, n, p);
    }
  }

  lemma DifferenceOfSquares(w: int, y: int)
    ensures (w - y) * (w + y) == w * w - y * y
  {
  }
}
