/** When double-and-add throws, for every scalar and every pair of coordinates: from the operand
    alone, without running it. */
module LadderFaults {
  import opened Options
  import opened Modular
  import opened Curve
  import opened RawCurve

  /** An ordinate that is not zero but a multiple of p. */
  predicate Vertical(s: Point, p: int)
    requires p > 0
  {
    s.Affine? && s.y != 0 && s.y % p == 0
  }

  predicate AbscissaReduced(s: Point, p: int) {
    s.Affine? ==> 0 <= s.x < p
  }

  /** j is k without some of its low bits. */
  predicate Prefix(j: nat, k: nat) {
    j == k || (k > 0 && Prefix(j, k / 2))
  }

  /** Before its last addition the run on an odd j holds a point above or below u. */
  ghost predicate MeetsAt(j: nat, u: Point, p: int)
    requires OddPrime(p) && Canonical(u, p) && u.Affine?
  {
    j % 2 == 1 && Ladder(j - 1, u, p).Affine? && Ladder(j - 1, u, p).x == u.x
  }

  ghost predicate MeetsOnTheWay(k: nat, u: Point, p: int)
    requires OddPrime(p) && Canonical(u, p) && u.Affine?
  {
    exists j: nat {:trigger Prefix(j, k)} :: Prefix(j, k) && MeetsAt(j, u, p)
  }

  /** The condition. A vertical operand cannot be doubled; one with an unreduced abscissa cannot be
      added to a partial result with the same residue. */
  ghost predicate Trips(k: nat, s: Point, p: int)
    requires OddPrime(p)
  {
    s.Affine? && k >= 2
    && (Vertical(s, p) || (!AbscissaReduced(s, p) && MeetsOnTheWay(k, Reduce(s, p), p)))
  }

  lemma VerticalDoubled(s: Point, p: int)
    requires OddPrime(p) && s.Affine?
    ensures (s.y * 2) % p == 0 <==> s.y % p == 0
  {
    var y := s.y % p;
    CongMod(s.y, p);
    CongMul(s.y, y, 2, 2, p);
    ModUnique(0, 0, 0, p);
    if y > 0 { DoubledNonZero(y, p); }
  }

  /** Doubling what the run holds, unless that is a vertical operand. */
  lemma DoublingHolds(t: Point, s: Point, p: int)
    requires OddPrime(p) && t.Affine? && (t == s || Canonical(t, p)) && !Vertical(s, p)
    ensures TryDouble(t.x, t.y, p) == Some(Add(Reduce(t, p), Reduce(t, p), p))
  {
    VerticalDoubled(t, p);
    ModUnique(0, 0, 0, p);
    if (t.y * 2) % p != 0 {
      DoubleReduces(t.x, t.y, p);
    } else if Canonical(t, p) {
      ModUnique(t.y, 0, t.y, p);
    }
  }

  // ----- A reduced abscissa -----

  /** With a reduced abscissa and no vertical ordinate nothing throws. */
  lemma {:induction false} ReducedAbscissaRuns(k: nat, s: Point, p: int)
    requires OddPrime(p) && s.Affine? && AbscissaReduced(s, p) && !Vertical(s, p)
    ensures TryLadder(k, s, p).Some?
  {
    if k > 0 {
      ReducedAbscissaRuns(k / 2, s, p);
      LadderReduced(k / 2, s, p);
      var t := TryLadder(k / 2, s, p).value;
      if t.Affine? {
        DoublingHolds(t, s, p);
        AdditionRuns(Add(Reduce(t, p), Reduce(t, p), p), s, p);
      }
    }
  }

  lemma AdditionRuns(d: Point, s: Point, p: int)
    requires OddPrime(p) && Canonical(d, p) && s.Affine? && AbscissaReduced(s, p)
    ensures d.Affine? ==> TryAdd(d.x, d.y, s.x, s.y, p).Some?
  {
    if d.Affine? {
      AddTotal(d, d, p);
      if d.x != s.x { DifferenceNonZero(d.x, s.x, p); }
    }
  }

  // ----- An unreduced abscissa -----

  /** What the run holds after k, with an unreduced abscissa: the group's result, or it has met the
      operand on the way and thrown. */
  ghost predicate Follows(k: nat, s: Point, p: int)
    requires OddPrime(p) && s.Affine?
  {
    var t, u := TryLadder(k, s, p), Reduce(s, p);
    if MeetsOnTheWay(k, u, p) then t.None? else t.Some? && Reduce(t.value, p) == Ladder(k, u, p)
  }

  lemma PrefixStep(k: nat, u: Point, p: int)
    requires OddPrime(p) && Canonical(u, p) && u.Affine? && k > 0
    ensures MeetsOnTheWay(k, u, p) <==> MeetsOnTheWay(k / 2, u, p) || MeetsAt(k, u, p)
  {
    assert Prefix(k, k);
    if MeetsOnTheWay(k / 2, u, p) {
      var j: nat :| Prefix(j, k / 2) && MeetsAt(j, u, p);
      assert Prefix(j, k);
    }
    if MeetsOnTheWay(k, u, p) {
      var j: nat :| Prefix(j, k) && MeetsAt(j, u, p);
      assert j == k || Prefix(j, k / 2);
    }
  }

  lemma NothingMet(u: Point, p: int)
    requires OddPrime(p) && Canonical(u, p) && u.Affine?
    ensures !MeetsOnTheWay(0, u, p) && !MeetsOnTheWay(1, u, p)
  {
    assert forall j: nat :: Prefix(j, 0) ==> j == 0;
    assert Ladder(0, u, p) == Infinity;
    PrefixStep(1, u, p);
  }

  /** Adding the operand throws exactly when the residues of the abscissas agree. */
  lemma UnreducedAddition(d: Point, s: Point, p: int)
    requires OddPrime(p) && Canonical(d, p) && d.Affine? && s.Affine? && !AbscissaReduced(s, p)
    ensures var t, u := TryAdd(d.x, d.y, s.x, s.y, p), Reduce(s, p);
            if d.x == u.x then t.None? else t == Some(Add(d, u, p))
  {
    var u := Reduce(s, p);
    if d.x == u.x {
      CongMod(s.x, p);
      CongAdd(s.x, d.x, d.x, d.x, p);
      ModUnique(0, 0, 0, p);
    } else {
      FreeAdd(d, s, p);
    }
  }

  lemma {:induction false} UnreducedRun(k: nat, s: Point, p: int)
    requires OddPrime(p) && s.Affine? && !AbscissaReduced(s, p) && !Vertical(s, p)
    ensures Follows(k, s, p)
  {
    var u := Reduce(s, p);
    if k == 0 {
      NothingMet(u, p);
    } else {
      UnreducedRun(k / 2, s, p);
      LadderReduced(k / 2, s, p);
      PrefixStep(k, u, p);
      if TryLadder(k / 2, s, p).Some? {
        UnreducedStep(k, TryLadder(k / 2, s, p).value, s, p);
      }
    }
  }

  lemma UnreducedStep(k: nat, t: Point, s: Point, p: int)
    requires OddPrime(p) && s.Affine? && !AbscissaReduced(s, p) && !Vertical(s, p) && k > 0
    requires (t == s || Canonical(t, p)) && Reduce(t, p) == Ladder(k / 2, Reduce(s, p), p)
    ensures var r, u := TryStep(Some(t), k % 2 == 1, s, p), Reduce(s, p);
            if MeetsAt(k, u, p) then r.None? else r.Some? && Reduce(r.value, p) == Ladder(k, u, p)
  {
    var h := Reduce(t, p);
    if t.Affine? { DoublingHolds(t, s, p); }
    StepAsDoubled(t, Add(h, h, p), k % 2 == 1, s, p);
    if k % 2 == 1 {
      LastDoubling(k, Reduce(s, p), p);
      LastAddition(Add(h, h, p), s, p);
    }
  }

  /** A step, once the result d of its doubling is known. */
  lemma StepAsDoubled(t: Point, d: Point, odd: bool, s: Point, p: int)
    requires OddPrime(p) && s.Affine?
    requires if t.Infinity? then d.Infinity? else TryDouble(t.x, t.y, p) == Some(d)
    ensures TryStep(Some(t), odd, s, p)
         == if !odd then Some(d) else if d.Infinity? then Some(s) else TryAdd(d.x, d.y, s.x, s.y, p)
  {
  }

  lemma LastAddition(d: Point, s: Point, p: int)
    requires OddPrime(p) && Canonical(d, p) && s.Affine? && !AbscissaReduced(s, p)
    ensures var r := if d.Infinity? then Some(s) else TryAdd(d.x, d.y, s.x, s.y, p);
            if d.Affine? && d.x == Reduce(s, p).x then r.None?
            else r.Some? && Reduce(r.value, p) == Add(d, Reduce(s, p), p)
  {
    if d.Affine? { UnreducedAddition(d, s, p); }
  }

  lemma LastDoubling(j: nat, u: Point, p: int)
    requires OddPrime(p) && Canonical(u, p) && j % 2 == 1
    ensures Ladder(j - 1, u, p) == Add(Ladder(j / 2, u, p), Ladder(j / 2, u, p), p)
  {
    if j > 1 {
      assert (j - 1) / 2 == j / 2;
    } else {
      assert Ladder(0, u, p) == Infinity;
    }
  }

  // ----- The decision -----

  /** Double-and-add throws exactly under the condition, whatever its operands. */
  lemma ThrowsIff(k: nat, s: Point, p: int)
    requires OddPrime(p)
    ensures TryLadder(k, s, p).None? <==> Trips(k, s, p)
  {
    if s.Affine? {
      if k < 2 {
        assert TryLadder(0, s, p) == Some(Infinity);
        assert k == 1 ==> TryLadder(1, s, p) == Some(s);
      } else if Vertical(s, p) {
        VerticalDoubled(s, p);
        VerticalThrows(k, s.x, s.y, p);
      } else if AbscissaReduced(s, p) {
        ReducedAbscissaRuns(k, s, p);
      } else {
        UnreducedRun(k, s, p);
      }
    }
  }

  // ----- The condition in the group -----

  /** Meeting the operand, on a curve with an associative law, is a matter of its order: it divides
      j or j - 2. */
  lemma MeetsIff(j: nat, u: Point, b: int, p: int)
    requires OddPrime(p) && Associative(b, p) && OnCurve(u, b, p) && u.Affine?
    ensures MeetsAt(j, u, p)
       <==> j >= 3 && j % 2 == 1 && (Multiple(j, u, p).Infinity? || Multiple(j - 2, u, p).Infinity?)
  {
    if j % 2 == 1 {
      var d := Multiple(j - 1, u, p);
      LadderIsMultiple(j - 1, u, b, p);
      assert Multiple(j, u, p) == Add(d, u, p);
      if j >= 3 {
        var e := Multiple(j - 2, u, p);
        MultipleOnCurve(j - 2, u, b, p);
        assert d == Add(e, u, p);
        if d == u { CancelAdd(e, Infinity, u, b, p); }
      } else {
        assert Multiple(0, u, p) == Infinity;
      }
    }
  }

  /** Some odd prefix of k, or the odd number before it, is a multiple of the order of u. */
  ghost predicate OrderOnTheWay(k: nat, u: Point, p: int)
    requires OddPrime(p) && Canonical(u, p)
  {
    exists j: nat {:trigger Prefix(j, k)} :: Prefix(j, k) && j >= 3 && j % 2 == 1
      && (Multiple(j, u, p).Infinity? || Multiple(j - 2, u, p).Infinity?)
  }

  /** The condition for a point that reduces to a point of a curve y^2 = x^3 + b, whichever. */
  lemma ThrowsInGroup(k: nat, s: Point, b: int, p: int)
    requires OddPrime(p) && Associative(b, p) && s.Affine? && OnCurve(Reduce(s, p), b, p)
    ensures TryLadder(k, s, p).None?
       <==> k >= 2 && (Vertical(s, p) || (!AbscissaReduced(s, p) && OrderOnTheWay(k, Reduce(s, p), p)))
  {
    var u := Reduce(s, p);
    ThrowsIff(k, s, p);
    if MeetsOnTheWay(k, u, p) {
      var j: nat :| Prefix(j, k) && MeetsAt(j, u, p);
      MeetsIff(j, u, b, p);
    }
    if OrderOnTheWay(k, u, p) {
      var j: nat :| Prefix(j, k) && j >= 3 && j % 2 == 1
                    && (Multiple(j, u, p).Infinity? || Multiple(j - 2, u, p).Infinity?);
      MeetsIff(j, u, b, p);
    }
  }

  lemma {:induction false} PrefixBelow(j: nat, k: nat)
    requires Prefix(j, k)
    ensures j <= k
  {
    if j != k { PrefixBelow(j, k / 2); }
  }

  /** Coordinates below p never throw. */
  lemma ReducedNeverTrips(k: nat, s: Point, p: int)
    requires OddPrime(p) && Canonical(s, p)
    ensures !Trips(k, s, p)
  {
    if s.Affine? { ModUnique(s.y, 0, s.y, p); }
  }

  /** Nor do any coordinates that reduce to a point of prime order q, for scalars below q. */
  lemma GroupNeverTrips(k: nat, s: Point, q: nat, b: int, p: int)
    requires OddPrime(p) && Associative(b, p) && OnCurve(Reduce(s, p), b, p)
    requires Prime(q) && Multiple(q, Reduce(s, p), p).Infinity? && k < q
    ensures !Trips(k, s, p)
  {
    var u := Reduce(s, p);
    if Trips(k, s, p) {
      FirstMultiples(u, p);
      ThrowsIff(k, s, p);
      ThrowsInGroup(k, s, b, p);
      var n: nat := 2;
      if !Vertical(s, p) {
        var j: nat :| Prefix(j, k) && j >= 3 && j % 2 == 1
                      && (Multiple(j, u, p).Infinity? || Multiple(j - 2, u, p).Infinity?);
        PrefixBelow(j, k);
        n := if Multiple(j, u, p).Infinity? then j else j - 2;
      }
      assert Multiple(n, u, p).Infinity? && 0 < n;
      PrimeOrder(n, q, u, b, p);
      NoMultipleBelow(n, k, q);
    }
  }

  lemma NoMultipleBelow(n: nat, k: nat, q: nat)
    requires 0 < n <= k < q
    ensures n % q != 0
  {
    ModUnique(n, 0, n, q);
  }

  /** A point of order three over an unreduced abscissa: every scalar that begins with two ones throws. */
  lemma ThirdThrows(k: nat, y: int, p: int)
    requires OddPrime(p) && 0 < y < p && Prefix(3, k)
    ensures Trips(k, Affine(p, y), p)
  {
    var u := Affine(0, y);
    ModUnique(p, 1, 0, p);
    ModUnique(y, 0, y, p);
    PrefixBelow(3, k);
    assert Ladder(0, u, p) == Infinity && Ladder(1, u, p) == u;
    LastDoubling(3, u, p);
    TangentAtZero(y, p);
    assert MeetsAt(3, u, p);
  }

  lemma TangentAtZero(y: int, p: int)
    requires OddPrime(p) && 0 < y < p
    ensures PointDouble(0, y, p).Affine? && PointDouble(0, y, p).x == 0
  {
    ModUnique(0, 0, 0, p);
    assert TangentSlope(0, y, p) == 0;
  }
}
