/** pointAdd, pointDouble and double-and-add as they run on any coordinates, reduced or not: these
    are compared as integers and otherwise taken modulo p, and modInverse throws on zero. */
module RawCurve {
  import opened Options
  import opened Modular
  import opened Curve

  /** None is the exception of modInverse. */
  function TryDouble(x: int, y: int, p: int): Option<Point>
    requires OddPrime(p)
  {
    if y == 0 then Some(Infinity)
    else if (y * 2) % p == 0 then None
    else
      var lambda := Slope((x * x) % p * 3 + 0, y * 2, p);
      var x3 := (lambda * lambda - x * 2) % p;
      Some(Affine(x3, (lambda * (x - x3) - y) % p))
  }

  function TryAdd(x1: int, y1: int, x2: int, y2: int, p: int): Option<Point>
    requires OddPrime(p)
  {
    if x1 == x2 then
      if y1 == y2 then TryDouble(x1, y1, p) else Some(Infinity)
    else if (x2 - x1) % p == 0 then None
    else
      var lambda := Slope(y2 - y1, x2 - x1, p);
      var x3 := (lambda * lambda - x1 - x2) % p;
      Some(Affine(x3, (lambda * (x1 - x3) - y1) % p))
  }

  /** One iteration of the loop of ecPointMul on the partial result h. */
  function TryStep(h: Option<Point>, odd: bool, s: Point, p: int): Option<Point>
    requires OddPrime(p) && s.Affine?
  {
    var d := if h.None? || h.value.Infinity? then h else TryDouble(h.value.x, h.value.y, p);
    if d.None? || !odd then d
    else if d.value.Infinity? then Some(s)
    else TryAdd(d.value.x, d.value.y, s.x, s.y, p)
  }

  /** What double-and-add has computed once the bits of k have been consumed. */
  function TryLadder(k: nat, s: Point, p: int): Option<Point>
    requires OddPrime(p)
  {
    if k == 0 || s.Infinity? then Some(Infinity) else TryStep(TryLadder(k / 2, s, p), k % 2 == 1, s, p)
  }

  /** ecPointAdd's case distinction. */
  function TrySum(s: Point, t: Point, p: int): Option<Point>
    requires OddPrime(p)
  {
    if s.Infinity? then Some(t) else if t.Infinity? then Some(s) else TryAdd(s.x, s.y, t.x, t.y, p)
  }

  function Reduce(s: Point, p: int): (r: Point)
    requires p > 0
    ensures Canonical(r, p)
    ensures Canonical(s, p) ==> r == s
  {
    if s.Infinity? then Infinity else
      if Canonical(s, p) then ModUnique(s.x, 0, s.x, p); ModUnique(s.y, 0, s.y, p); Affine(s.x % p, s.y % p)
      else Affine(s.x % p, s.y % p)
  }

  // ----- One operation, reduced -----

  lemma SlopeReduces(num: int, den: int, num': int, den': int, p: int)
    requires OddPrime(p) && den % p != 0 && Cong(num, num', p) && Cong(den, den', p)
    ensures den' % p != 0 && Slope(num, den, p) == Slope(num', den', p)
  {
  }

  /** The third intersection depends on residues only: a1, b1, a2 stand for x1, y1, x2 reduced. */
  lemma AbscissaReduces(l: int, x1: int, x2: int, a1: int, a2: int, p: int)
    requires p > 0 && Cong(x1, a1, p) && Cong(x2, a2, p)
    ensures Cong(l * l - x1 - x2, l * l - a1 - a2, p)
  {
    var ll := l * l;
    CongAdd(ll, ll, x1, a1, p);
    CongAdd(ll - x1, ll - a1, x2, a2, p);
  }

  lemma OrdinateReduces(l: int, x1: int, y1: int, a1: int, b1: int, x3: int, p: int)
    requires p > 0 && Cong(x1, a1, p) && Cong(y1, b1, p)
    ensures Cong(l * (x1 - x3) - y1, l * (a1 - x3) - b1, p)
  {
    CongAdd(x1, a1, x3, x3, p);
    CongMul(l, l, x1 - x3, a1 - x3, p);
    CongAdd(l * (x1 - x3), l * (a1 - x3), y1, b1, p);
  }

  lemma TangentReduces(x: int, y: int, a: int, b: int, p: int)
    requires OddPrime(p) && (y * 2) % p != 0 && 0 < b < p && Cong(x, a, p) && Cong(y, b, p)
    ensures Slope((x * x) % p * 3 + 0, y * 2, p) == TangentSlope(a, b, p)
  {
    CongMul(y, b, 2, 2, p);
    CongMul(x, a, x, a, p);
    SlopeReduces((x * x) % p * 3 + 0, y * 2, (a * a) % p * 3 + 0, b * 2, p);
  }

  lemma DoubleTo(x: int, y: int, a: int, b: int, p: int)
    requires OddPrime(p) && (y * 2) % p != 0 && 0 <= a < p && 0 < b < p && Cong(x, a, p) && Cong(y, b, p)
    ensures TryDouble(x, y, p) == Some(PointDouble(a, b, p))
  {
    TangentReduces(x, y, a, b, p);
    ModUnique(0, 0, 0, p);
    var l := TangentSlope(a, b, p);
    AbscissaReduces(l, x, x, a, a, p);
    var x3 := (l * l - x * 2) % p;
    assert x3 == (l * l - a * 2) % p;
    OrdinateReduces(l, x, y, a, b, x3, p);
    assert TryDouble(x, y, p) == Some(Affine(x3, (l * (x - x3) - y) % p));
  }

  lemma DoubleReduces(x: int, y: int, p: int)
    requires OddPrime(p) && (y * 2) % p != 0
    ensures y % p != 0 && TryDouble(x, y, p) == Some(PointDouble(x % p, y % p, p))
  {
    NotVertical(y, p);
    CongMod(x, p);
    CongMod(y, p);
    DoubleTo(x, y, x % p, y % p, p);
  }

  lemma NotVertical(y: int, p: int)
    requires p > 0 && (y * 2) % p != 0
    ensures y % p != 0
  {
    if y % p == 0 {
      CongMod(y, p);
      CongMul(y, 0, 2, 2, p);
      ModUnique(0, 0, 0, p);
      assert false;
    }
  }

  lemma ResiduesDiffer(x1: int, x2: int, p: int)
    requires p > 0 && (x2 - x1) % p != 0
    ensures x1 != x2 && x1 % p != x2 % p
  {
    ModUnique(0, 0, 0, p);
    if x1 % p == x2 % p {
      CongAdd(x2, x1, x1, x1, p);
      assert false;
    }
  }

  lemma ChordReduces(x1: int, y1: int, x2: int, y2: int, a1: int, b1: int, a2: int, b2: int, p: int)
    requires OddPrime(p) && (x2 - x1) % p != 0 && 0 <= a1 < p && 0 <= a2 < p && a1 != a2
    requires Cong(x1, a1, p) && Cong(y1, b1, p) && Cong(x2, a2, p) && Cong(y2, b2, p)
    ensures Slope(y2 - y1, x2 - x1, p) == ChordSlope(a1, b1, a2, b2, p)
  {
    CongAdd(x2, a2, x1, a1, p);
    CongAdd(y2, b2, y1, b1, p);
    SlopeReduces(y2 - y1, x2 - x1, b2 - b1, a2 - a1, p);
  }

  /** The two results for one slope l. */
  lemma SameThird(l: int, x1: int, y1: int, x2: int, a1: int, b1: int, a2: int, x3: int, a3: int, p: int)
    requires p > 0 && Cong(x1, a1, p) && Cong(y1, b1, p) && Cong(x2, a2, p)
    requires x3 == (l * l - x1 - x2) % p && a3 == (l * l - a1 - a2) % p
    ensures x3 == a3 && Cong(l * (x1 - x3) - y1, l * (a1 - a3) - b1, p)
  {
    AbscissaReduces(l, x1, x2, a1, a2, p);
    OrdinateReduces(l, x1, y1, a1, b1, x3, p);
  }

  lemma AddTo(x1: int, y1: int, x2: int, y2: int, a1: int, b1: int, a2: int, b2: int, p: int)
    requires OddPrime(p) && (x2 - x1) % p != 0 && x1 != x2
    requires 0 <= a1 < p && 0 <= a2 < p && 0 <= b1 < p && a1 != a2
    requires Cong(x1, a1, p) && Cong(y1, b1, p) && Cong(x2, a2, p) && Cong(y2, b2, p)
    ensures TryAdd(x1, y1, x2, y2, p) == Some(PointAdd(a1, b1, a2, b2, p))
  {
    ChordReduces(x1, y1, x2, y2, a1, b1, a2, b2, p);
    var l := ChordSlope(a1, b1, a2, b2, p);
    SameThird(l, x1, y1, x2, a1, b1, a2, (l * l - x1 - x2) % p, (l * l - a1 - a2) % p, p);
  }

  lemma AddReduces(x1: int, y1: int, x2: int, y2: int, p: int)
    requires OddPrime(p) && (x2 - x1) % p != 0
    ensures x1 % p != x2 % p && TryAdd(x1, y1, x2, y2, p) == Some(PointAdd(x1 % p, y1 % p, x2 % p, y2 % p, p))
  {
    ResiduesDiffer(x1, x2, p);
    CongMod(x1, p);
    CongMod(x2, p);
    CongMod(y1, p);
    CongMod(y2, p);
    AddTo(x1, y1, x2, y2, x1 % p, y1 % p, x2 % p, y2 % p, p);
  }

  /** A double that does not throw is the reduced double. */
  lemma DoubleOutcome(h: Point, p: int)
    requires OddPrime(p) && h.Affine?
    ensures var d, r := TryDouble(h.x, h.y, p), Reduce(h, p);
            d.Some? ==> Canonical(d.value, p) && d.value == Add(r, r, p)
  {
    ModUnique(0, 0, 0, p);
    if (h.y * 2) % p != 0 {
      DoubleReduces(h.x, h.y, p);
    }
  }

  /** A sum that does not throw is the reduced sum, the reduced double, or null. */
  lemma AddOutcome(d: Point, s: Point, p: int)
    requires OddPrime(p) && d.Affine? && s.Affine?
    ensures var t, r, u := TryAdd(d.x, d.y, s.x, s.y, p), Reduce(d, p), Reduce(s, p);
            && (t.Some? ==> Canonical(t.value, p))
            && (t.Some? ==> t.value == Add(r, u, p) || t.value == Add(u, u, p) || t.value == Infinity)
  {
    if d.x == s.x {
      if d.y == s.y { DoubleOutcome(d, p); }
    } else if (s.x - d.x) % p != 0 {
      AddReduces(d.x, d.y, s.x, s.y, p);
    }
  }

  // ----- Reduced operands: nothing throws -----

  lemma AddTotal(s: Point, t: Point, p: int)
    requires OddPrime(p) && Canonical(s, p) && Canonical(t, p)
    ensures TrySum(s, t, p) == Some(Add(s, t, p))
    ensures s.Affine? ==> TryDouble(s.x, s.y, p) == Some(Add(s, s, p))
  {
    if s.Affine? {
      if s.y > 0 {
        DoubledNonZero(s.y, p);
        DoubleReduces(s.x, s.y, p);
      }
      assert Reduce(s, p) == s;
      if t.Affine? && s.x != t.x {
        assert Reduce(t, p) == t;
        DifferenceNonZero(s.x, t.x, p);
        AddReduces(s.x, s.y, t.x, t.y, p);
      }
    }
  }

  /** On a reduced point double-and-add never throws. */
  lemma {:induction false} LadderTotal(k: nat, s: Point, p: int)
    requires OddPrime(p) && Canonical(s, p)
    ensures TryLadder(k, s, p) == Some(Ladder(k, s, p))
  {
    if s.Infinity? {
      InfinityLadder(k, p);
    } else if k > 0 {
      LadderTotal(k / 2, s, p);
      var h := Ladder(k / 2, s, p);
      AddTotal(h, h, p);
      AddTotal(Add(h, h, p), s, p);
    }
  }

  lemma {:induction false} InfinityLadder(k: nat, p: int)
    requires OddPrime(p)
    ensures Ladder(k, Infinity, p).Infinity?
  {
    if k > 0 {
      InfinityLadder(k / 2, p);
    }
  }

  // ----- Unreduced operands -----

  /** What is left of the run is reduced, unless it is the operand itself. */
  lemma {:induction false} LadderReduced(k: nat, s: Point, p: int)
    requires OddPrime(p)
    ensures var t := TryLadder(k, s, p); t.Some? ==> t.value == s || Canonical(t.value, p)
  {
    if k > 0 && s.Affine? {
      LadderReduced(k / 2, s, p);
      StepReduced(TryLadder(k / 2, s, p), k % 2 == 1, s, p);
    }
  }

  lemma StepReduced(h: Option<Point>, odd: bool, s: Point, p: int)
    requires OddPrime(p) && s.Affine?
    ensures var t := TryStep(h, odd, s, p);
            t.Some? ==> t == Some(s) || t.value.Infinity? || Canonical(t.value, p)
  {
    if h.Some? && h.value.Affine? {
      DoubleOutcome(h.value, p);
      var d := TryDouble(h.value.x, h.value.y, p);
      if d.Some? && d.value.Affine? { AddOutcome(d.value, s, p); }
    }
  }

  /** A run that does not throw stays on the curve of its operand, whichever that is. */
  lemma {:induction false} RawLadderOnCurve(k: nat, s: Point, b: int, p: int)
    requires OddPrime(p) && OnCurve(Reduce(s, p), b, p)
    ensures var t := TryLadder(k, s, p); t.Some? ==> OnCurve(Reduce(t.value, p), b, p)
  {
    if k > 0 && s.Affine? {
      RawLadderOnCurve(k / 2, s, b, p);
      StepOnCurve(TryLadder(k / 2, s, p), k % 2 == 1, s, b, p);
    }
  }

  lemma StepOnCurve(h: Option<Point>, odd: bool, s: Point, b: int, p: int)
    requires OddPrime(p) && s.Affine? && OnCurve(Reduce(s, p), b, p)
    requires h.Some? ==> OnCurve(Reduce(h.value, p), b, p)
    ensures var t := TryStep(h, odd, s, p); t.Some? ==> OnCurve(Reduce(t.value, p), b, p)
  {
    if h.Some? && h.value.Affine? {
      var u, r := Reduce(s, p), Reduce(h.value, p);
      DoubleOutcome(h.value, p);
      AddOnCurve(r, r, b, p);
      var d := TryDouble(h.value.x, h.value.y, p);
      if d.Some? && d.value.Affine? {
        AddOutcome(d.value, s, p);
        AddOnCurve(d.value, u, b, p);
        AddOnCurve(u, u, b, p);
      }
    }
  }

  /** A run that does not throw ends in some multiple of its reduced operand. */
  lemma {:induction false} SomeMultiple(k: nat, s: Point, b: int, p: int) returns (m: nat)
    requires OddPrime(p) && OnCurve(Reduce(s, p), b, p) && Associative(b, p) && TryLadder(k, s, p).Some?
    ensures Reduce(TryLadder(k, s, p).value, p) == Multiple(m, Reduce(s, p), p)
  {
    if k == 0 || s.Infinity? {
      m := 0;
    } else {
      var h := TryLadder(k / 2, s, p);
      var i := SomeMultiple(k / 2, s, b, p);
      m := StepMultiple(h, k % 2 == 1, s, i, b, p);
    }
  }

  lemma StepMultiple(h: Option<Point>, odd: bool, s: Point, i: nat, b: int, p: int) returns (m: nat)
    requires OddPrime(p) && s.Affine? && OnCurve(Reduce(s, p), b, p) && Associative(b, p)
    requires h.Some? && Reduce(h.value, p) == Multiple(i, Reduce(s, p), p)
    requires TryStep(h, odd, s, p).Some?
    ensures Reduce(TryStep(h, odd, s, p).value, p) == Multiple(m, Reduce(s, p), p)
  {
    var u := Reduce(s, p);
    FirstMultiples(u, p);
    var d := h.value;
    var j: nat := 0;
    if h.value.Affine? {
      DoubleOutcome(h.value, p);
      MultipleSum(i, i, u, b, p);
      d, j := TryDouble(h.value.x, h.value.y, p).value, i + i;
    }
    if !odd {
      m := j;
    } else if d.Infinity? {
      m := 1;
    } else {
      AddOutcome(d, s, p);
      var t := TryAdd(d.x, d.y, s.x, s.y, p).value;
      m := if t == Infinity then 0 else if t == Add(u, u, p) then 2 else j + 1;
    }
  }

  lemma FirstMultiples(s: Point, p: int)
    requires OddPrime(p) && Canonical(s, p)
    ensures Multiple(0, s, p) == Infinity && Multiple(1, s, p) == s && Multiple(2, s, p) == Add(s, s, p)
  {
    assert Multiple(1, s, p) == Add(Multiple(0, s, p), s, p);
    assert Multiple(2, s, p) == Add(Multiple(1, s, p), s, p);
  }

  /** No multiple of s up to the k-fold is the identity. */
  ghost predicate Free(k: nat, s: Point, p: int)
    requires OddPrime(p) && Canonical(s, p)
  {
    forall j: nat {:trigger Multiple(j, s, p)} :: 0 < j <= k ==> Multiple(j, s, p).Affine?
  }

  /** As long as no multiple vanishes, no partial result meets the operand or its negative, so
      nothing throws and the run computes the multiple of the reduced operand. */
  lemma {:induction false} FreeLadder(k: nat, s: Point, b: int, p: int)
    requires OddPrime(p) && s.Affine? && OnCurve(Reduce(s, p), b, p) && Associative(b, p)
    requires k > 0 && Free(k, Reduce(s, p), p)
    ensures TryLadder(k, s, p) == Some(if k == 1 then s else Multiple(k, Reduce(s, p), p))
  {
    if k == 1 {
      assert TryLadder(0, s, p) == Some(Infinity);
    } else {
      var h := k / 2;
      FreeLadder(h, s, b, p);
      FirstMultiples(Reduce(s, p), p);
      FreeStep(TryLadder(h, s, p).value, h, k % 2 == 1, s, b, p);
    }
  }

  lemma FreeStep(t: Point, h: nat, odd: bool, s: Point, b: int, p: int)
    requires OddPrime(p) && s.Affine? && OnCurve(Reduce(s, p), b, p) && Associative(b, p)
    requires h > 0 && Reduce(t, p) == Multiple(h, Reduce(s, p), p)
    requires Free(if odd then h + h + 1 else h + h, Reduce(s, p), p)
    ensures TryStep(Some(t), odd, s, p) == Some(Multiple(if odd then h + h + 1 else h + h, Reduce(s, p), p))
  {
    var u := Reduce(s, p);
    var m := Multiple(h, u, p);
    assert m.Affine? && Multiple(h + h, u, p).Affine?;
    MultipleSum(h, h, u, b, p);
    FreeDouble(t, p);
    if odd {
      var d := Multiple(h + h, u, p);
      assert Multiple(h + h + 1, u, p) == Add(d, u, p) && Multiple(h + h + 1, u, p).Affine?;
      MultipleOnCurve(h + h, u, b, p);
      MultipleOnCurve(h + h - 1, u, b, p);
      assert Multiple(h + h - 1, u, p).Affine? && d == Add(Multiple(h + h - 1, u, p), u, p);
      ApartFromOperand(Multiple(h + h - 1, u, p), d, u, b, p);
      FreeAdd(d, s, p);
    }
  }

  lemma FreeDouble(t: Point, p: int)
    requires OddPrime(p) && t.Affine? && Add(Reduce(t, p), Reduce(t, p), p).Affine?
    ensures TryDouble(t.x, t.y, p) == Some(Add(Reduce(t, p), Reduce(t, p), p))
  {
    var y := t.y % p;
    DoubledNonZero(y, p);
    CongMod(t.y, p);
    CongMul(t.y, y, 2, 2, p);
    ModUnique(0, 0, 0, p);
    DoubleReduces(t.x, t.y, p);
  }

  lemma FreeAdd(d: Point, s: Point, p: int)
    requires OddPrime(p) && d.Affine? && s.Affine? && Canonical(d, p) && d.x != Reduce(s, p).x
    ensures TryAdd(d.x, d.y, s.x, s.y, p) == Some(Add(d, Reduce(s, p), p))
  {
    assert Reduce(d, p) == d;
    if (s.x - d.x) % p == 0 {
      ModUnique(0, 0, 0, p);
      CongAdd(s.x - d.x, 0, d.x, d.x, p);
      assert false;
    }
    AddReduces(d.x, d.y, s.x, s.y, p);
  }

  /** A point that is neither u nor its negative has another abscissa. */
  lemma ApartFromOperand(e: Point, d: Point, u: Point, b: int, p: int)
    requires OddPrime(p) && Associative(b, p) && e.Affine? && d.Affine? && u.Affine?
    requires OnCurve(e, b, p) && OnCurve(d, b, p) && OnCurve(u, b, p)
    requires d == Add(e, u, p) && Add(d, u, p).Affine?
    ensures d.x != u.x
  {
    if d.x == u.x {
      if d == u {
        CancelAdd(e, Infinity, u, b, p);
      }
      assert false;
    }
  }

  /** An ordinate that is not zero but a multiple of p makes the first doubling throw, and with it
      every run on a scalar of at least two. */
  lemma {:induction false} VerticalThrows(k: nat, x: int, y: int, p: int)
    requires OddPrime(p) && y != 0 && (y * 2) % p == 0 && k >= 2
    ensures TryLadder(k, Affine(x, y), p) == None
  {
    if k >= 4 {
      VerticalThrows(k / 2, x, y, p);
    } else {
      assert TryLadder(0, Affine(x, y), p) == Some(Infinity);
      assert TryLadder(1, Affine(x, y), p) == Some(Affine(x, y));
    }
  }

  // ----- When the run computes the multiple of another point -----

  /** The run on s computes the r-fold sum of base, for 2 <= r below base's prime order, exactly
      when s reduced differs from base by a point that r annihilates. In particular it then does
      not throw. */
  lemma LadderDecides(r: nat, s: Point, base: Point, q: nat, b: int, p: int)
    requires OddPrime(p) && Associative(b, p) && s.Affine? && OnCurve(Reduce(s, p), b, p)
    requires Prime(q) && base.Affine? && OnCurve(base, b, p) && Multiple(q, base, p).Infinity?
    requires 2 <= r < q
    ensures (TryLadder(r, s, p) == Some(Multiple(r, base, p)))
       <==> Multiple(r, Difference(Reduce(s, p), base, p), p).Infinity?
  {
    var u, w := Reduce(s, p), Multiple(r, base, p);
    var d := Difference(u, base, p);
    DifferenceZero(u, base, b, p);
    MultipleOfSum(r, d, base, b, p);
    MultipleOnCurve(r, d, b, p);
    MultipleOnCurve(r, base, b, p);
    assert Multiple(r, u, p) == Add(Multiple(r, d, p), w, p);
    if Multiple(r, d, p).Infinity? {
      AnnihilatedDifferenceFree(r, u, base, q, b, p);
      FreeLadder(r, s, b, p);
    }
    if TryLadder(r, s, p) == Some(w) {
      var m := SomeMultiple(r, s, b, p);
      ReachesFree(r, m, u, base, q, b, p);
      FreeLadder(r, s, b, p);
      CancelAdd(Multiple(r, d, p), Infinity, w, b, p);
    }
  }

  /** j * r is not a multiple of the prime q that exceeds both. */
  lemma ProductNotMultiple(j: nat, r: nat, q: nat) returns (n: nat)
    requires Prime(q) && 0 < j < q && 0 < r < q
    ensures n == j * r == r * j && n % q != 0
  {
    n := NatProduct(j, r);
    ModUnique(j, 0, j, q);
    ModUnique(r, 0, r, q);
    if n % q == 0 { Euclid(j, r, q); }
  }

  lemma AnnihilatedDifferenceFree(r: nat, u: Point, base: Point, q: nat, b: int, p: int)
    requires OddPrime(p) && Associative(b, p) && OnCurve(u, b, p)
    requires Prime(q) && base.Affine? && OnCurve(base, b, p) && Multiple(q, base, p).Infinity?
    requires 0 < r < q && Multiple(r, Difference(u, base, p), p).Infinity?
    ensures Free(r, u, p)
  {
    forall j: nat | 0 < j <= r ensures Multiple(j, u, p).Affine? {
      var d := Difference(u, base, p);
      DifferenceZero(u, base, b, p);
      var n := ProductNotMultiple(j, r, q);
      PrimeOrder(n, q, base, b, p);
      MultipleOfSum(n, d, base, b, p);
      MultipleProduct(j, r, d, b, p);
      MultipleOfIdentity(j, p);
      assert Multiple(n, d, p).Infinity?;
      assert Multiple(n, u, p) == Multiple(n, base, p);
      MultipleProduct(r, j, u, b, p);
      MultipleOfIdentity(r, p);
    }
  }

  lemma ReachesFree(r: nat, m: nat, u: Point, base: Point, q: nat, b: int, p: int)
    requires OddPrime(p) && Associative(b, p) && OnCurve(u, b, p)
    requires Prime(q) && base.Affine? && OnCurve(base, b, p) && Multiple(q, base, p).Infinity?
    requires 0 < r < q && Multiple(m, u, p) == Multiple(r, base, p)
    ensures Free(r, u, p)
  {
    forall j: nat | 0 < j <= r ensures Multiple(j, u, p).Affine? {
      var n := ProductNotMultiple(j, r, q);
      PrimeOrder(n, q, base, b, p);
      MultipleProduct(j, r, base, b, p);
      MultipleProduct(j, m, u, b, p);
      MultipleProduct(m, j, u, b, p);
      var jm := NatProduct(j, m);
      MultipleOfIdentity(m, p);
    }
  }

  /** When q annihilates the operand too, only the operand itself will do. */
  lemma SameGroupDecides(r: nat, u: Point, base: Point, q: nat, b: int, p: int)
    requires OddPrime(p) && Associative(b, p) && OnCurve(u, b, p) && OnCurve(base, b, p)
    requires Prime(q) && Multiple(q, base, p).Infinity? && Multiple(q, u, p).Infinity? && 0 < r < q
    ensures Multiple(r, Difference(u, base, p), p).Infinity? <==> u == base
  {
    var d := Difference(u, base, p);
    DifferenceZero(u, base, b, p);
    MultipleOfSum(q, d, base, b, p);
    assert Multiple(q, d, p).Infinity?;
    if d.Infinity? {
      MultipleOfIdentity(r, p);
    } else {
      ModUnique(r, 0, r, q);
      PrimeOrder(r, q, d, b, p);
    }
  }
}
