/** v0's hash to the curve: try counters in turn until the hash is the abscissa of a point. */
module HashToG1 {
  import opened Options
  import opened Modular
  import opened Bytes
  import opened Curve
  import opened ECMath

  const LAST_COUNTER: nat := 10_000

  /** The abscissa tried at a counter; None when the hash is not a field element. */
  function Abscissa(sha256: Bytes -> Bytes, data: Bytes, counter: nat, p: int): Option<int> {
    var x := FromBE(sha256(data + ToBE(counter, 4)));
    if x < p then Some(x) else None
  }

  /** The field's square root: a power of the argument, checked by squaring. */
  function Sqrt(v: int, p: int): Option<int>
    requires p > 0
  {
    var y := Pow(v, (p + 1) / 4) % p;
    if (y * y) % p == v then Some(y) else None
  }

  function PointAt(sha256: Bytes -> Bytes, data: Bytes, counter: nat, c: Params): Option<Point>
    requires c.p > 0
  {
    match Abscissa(sha256, data, counter, c.p)
    case None => None
    case Some(x) =>
      var y := Sqrt(RightHandSide(x, c), c.p);
      if y.None? then None else Some(Affine(x, y.value))
  }

  /** Some point of the curve has the hash at this counter as its abscissa. */
  ghost predicate Hits(sha256: Bytes -> Bytes, data: Bytes, counter: nat, c: Params)
    requires c.p > 0
  {
    exists y :: OnCurve(Affine(FromBE(sha256(data + ToBE(counter, 4))), y), c.b, c.p)
  }

  predicate SquareOf(w: int, y: int, p: int)
    requires p > 0
  {
    Cong(w * w, y, p)
  }

  ghost predicate IsSquare(y: int, p: int)
    requires p > 0
  {
    exists w {:trigger SquareOf(w, y, p)} :: SquareOf(w, y, p)
  }

  /** An affine point of the curve, so not the identity, whose abscissa is the counter's hash and
      whose ordinate is the one of the two roots that is a square itself. */
  ghost predicate LiesAt(sha256: Bytes -> Bytes, data: Bytes, counter: nat, c: Params, pt: Point)
    requires c.p > 0
  {
    && pt.Affine? && OnCurve(pt, c.b, c.p) && pt.x == FromBE(sha256(data + ToBE(counter, 4)))
    && IsSquare(pt.y, c.p)
  }

  /** The root computed is a square: of its own power. */
  lemma RootIsSquare(v: int, p: int)
    requires p > 0 && Sqrt(v, p).Some?
    ensures IsSquare(Sqrt(v, p).value, p)
  {
    var e, y := (p + 1) / 4, Sqrt(v, p).value;
    PowSquare(y, e);
    PowAdd(y, e, e);
    CongMod(y * y, p);
    PowCong(y * y, v, e, p);
    CongMod(Pow(v, e), p);
    assert SquareOf(Pow(y, e), y, p);
  }

  lemma {:induction false} OddPower(a: int, h: nat)
    ensures Pow(-a, 2 * h) == Pow(a, 2 * h) && Pow(-a, 2 * h + 1) == -Pow(a, 2 * h + 1)
  {
    if h > 0 {
      OddPower(a, h - 1);
      assert Pow(-a, 2 * h) == -a * Pow(-a, 2 * h - 1) && Pow(a, 2 * h) == a * Pow(a, 2 * h - 1);
      Signs(a, Pow(a, 2 * h - 1));
      Signs(a, Pow(a, 2 * h));
    } else {
      assert Pow(-a, 1) == -a * Pow(-a, 0) && Pow(a, 1) == a * Pow(a, 0);
    }
  }

  lemma Signs(a: int, b: int)
    ensures -a * -b == a * b && -a * b == -(a * b)
  {
  }

  /** For p = 3 (mod 4) a unit and its negative are not both squares. */
  lemma NotBothSquares(y: int, p: int)
    requires OddPrime(p) && p % 4 == 3 && 0 < y < p && IsSquare(y, p)
    ensures !IsSquare(p - y, p)
  {
    if IsSquare(p - y, p) {
      var n, e := p - y, (p - 1) / 2;
      var z :| SquareOf(z, n, p);
      var w :| SquareOf(w, y, p);
      HalfPower(w, y, p);
      HalfPower(z, n, p);
      OddPower(y, (p - 3) / 4);
      assert 2 * ((p - 3) / 4) + 1 == e;
      CongIntro(n, -y, 1, p);
      PowCong(n, -y, e, p);
      CongAdd(0, 0, Pow(y, e), 1, p);
      ModUnique(1, 0, 1, p);
      ModUnique(-1, -1, p - 1, p);
    }
  }

  /** Euler: half of p - 1 is a power that sends a square unit to one. */
  lemma HalfPower(w: int, y: int, p: int)
    requires OddPrime(p) && 0 < y < p && SquareOf(w, y, p)
    ensures Cong(Pow(y, (p - 1) / 2), 1, p)
  {
    var e := (p - 1) / 2;
    UnitRoot(w, y, p);
    Fermat(w, p);
    PowSquare(w, e);
    assert p % 2 != 0;
    assert 2 * e == p - 1;
    PowCong(w * w, y, e, p);
  }

  lemma UnitRoot(w: int, y: int, p: int)
    requires p > 0 && SquareOf(w, y, p) && 0 < y < p
    ensures w % p != 0
  {
    if w % p == 0 {
      ModUnique(0, 0, 0, p);
      CongMul(w, 0, w, 0, p);
      ModUnique(y, 0, y, p);
    }
  }

  /** So a counter's hash leaves no choice of the point. */
  lemma OnePoint(sha256: Bytes -> Bytes, data: Bytes, counter: nat, c: Params, pt: Point, pt': Point)
    requires Sound(c) && c.p % 4 == 3
    requires LiesAt(sha256, data, counter, c, pt) && LiesAt(sha256, data, counter, c, pt')
    ensures pt == pt'
  {
    TwoRoots(pt.y, pt'.y, c.p);
    if pt.y != pt'.y && pt'.y > 0 { NotBothSquares(pt'.y, c.p); }
  }

  /** A counter yields a point exactly when there is one to be found, and it is on the curve. */
  lemma PointAtIff(sha256: Bytes -> Bytes, data: Bytes, counter: nat, c: Params)
    requires Sound(c) && c.p % 4 == 3
    ensures PointAt(sha256, data, counter, c).Some? <==> Hits(sha256, data, counter, c)
    ensures var pt := PointAt(sha256, data, counter, c);
            pt.Some? ==> LiesAt(sha256, data, counter, c, pt.value)
  {
    var x := FromBE(sha256(data + ToBE(counter, 4)));
    var pt := PointAt(sha256, data, counter, c);
    if pt.Some? {
      var y := pt.value.y;
      ModUnique(RightHandSide(x, c), 0, RightHandSide(x, c), c.p);
      CurveValueOf(x, y, c);
      assert OnCurve(Affine(x, y), c.b, c.p);
      RootIsSquare(RightHandSide(x, c), c.p);
    }
    if Hits(sha256, data, counter, c) {
      var y :| OnCurve(Affine(x, y), c.b, c.p);
      CurveValue(x, y, c);
      RootOfSquare(y, c.p);
    }
  }

  lemma RootOfSquare(y: int, p: int)
    requires OddPrime(p) && p % 4 == 3 && 0 <= y < p
    ensures Sqrt((y * y) % p, p).Some?
  {
    RootSelected(y, p);
  }

  ghost predicate MissesBelow(sha256: Bytes -> Bytes, data: Bytes, n: nat, c: Params)
    requires c.p > 0
  {
    forall i: nat {:trigger Hits(sha256, data, i, c)} :: i < n ==> !Hits(sha256, data, i, c)
  }

  /** One iteration. */
  method Try(sha256: Bytes -> Bytes, data: Bytes, counter: nat, c: Params) returns (pt: Option<Point>)
    requires Sound(c) && c.p % 4 == 3
    ensures pt.Some? ==> LiesAt(sha256, data, counter, c, pt.value)
    ensures pt.None? <==> !Hits(sha256, data, counter, c)
  {
    PointAtIff(sha256, data, counter, c);
    pt := PointAt(sha256, data, counter, c);
  }

  lemma OneMoreMiss(sha256: Bytes -> Bytes, data: Bytes, n: nat, c: Params)
    requires c.p > 0 && MissesBelow(sha256, data, n, c) && !Hits(sha256, data, n, c)
    ensures MissesBelow(sha256, data, n + 1, c)
  {
  }

  lemma NotAllMissed(sha256: Bytes -> Bytes, data: Bytes, counter: nat, n: nat, c: Params)
    requires c.p > 0 && counter < n && Hits(sha256, data, counter, c)
    ensures !MissesBelow(sha256, data, n, c)
  {
  }

  /** hash_to_g1; None is the panic after the last counter. Otherwise the point found is that of the
      first counter at which there is one. */
  method Hash(sha256: Bytes -> Bytes, data: Bytes, c: Params) returns (pt: Option<Point>, counter: nat)
    requires Sound(c) && c.p % 4 == 3
    ensures pt.None? <==> MissesBelow(sha256, data, LAST_COUNTER + 1, c)
    ensures pt.Some? ==>
              && counter <= LAST_COUNTER && MissesBelow(sha256, data, counter, c)
              && LiesAt(sha256, data, counter, c, pt.value)
  {
    counter := 0;
    while true
      invariant counter <= LAST_COUNTER
      invariant MissesBelow(sha256, data, counter, c)
      decreases LAST_COUNTER - counter
    {
      pt := Try(sha256, data, counter, c);
      if pt.Some? {
        NotAllMissed(sha256, data, counter, LAST_COUNTER + 1, c);
        return;
      }
      OneMoreMiss(sha256, data, counter, c);
      counter := counter + 1;
      if counter > LAST_COUNTER {
        return None, counter;
      }
    }
  }
}
