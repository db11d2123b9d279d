/** The ring of residues modulo q. A group of prime order q written additively is this ring's
    additive group, a scalar multiple is a product, and a pairing into such a group is a product. */
module Residues {
  import opened Modular

  predicate Residue(a: int, q: int) {
    0 <= a < q
  }

  function Plus(a: int, b: int, q: int): (r: int)
    requires q > 0
    ensures Residue(r, q)
  {
    (a + b) % q
  }

  function Minus(a: int, b: int, q: int): (r: int)
    requires q > 0
    ensures Residue(r, q)
  {
    (a - b) % q
  }

  lemma TimesCommutes(a: int, b: int, q: int)
    requires q > 0
    ensures Times(a, b, q) == Times(b, a, q)
  {
    assert a * b == b * a;
  }

  lemma TimesAssociates(a: int, b: int, c: int, q: int)
    requires q > 0
    ensures Times(Times(a, b, q), c, q) == Times(a, Times(b, c, q), q)
  {
    CongMod(a * b, q);
    CongMod(b * c, q);
    CongMul(Times(a, b, q), a * b, c, c, q);
    CongMul(a, a, Times(b, c, q), b * c, q);
    Regroup(a, b, c);
  }

  lemma Regroup(a: int, b: int, c: int)
    ensures a * b * c == a * (b * c)
  {
  }

  lemma TimesPlus(a: int, b: int, c: int, q: int)
    requires q > 0
    ensures Times(a, Plus(b, c, q), q) == Plus(Times(a, b, q), Times(a, c, q), q)
  {
    CongMod(b + c, q);
    CongMul(a, a, Plus(b, c, q), b + c, q);
    CongMod(a * b, q);
    CongMod(a * c, q);
    CongAdd(Times(a, b, q), a * b, Times(a, c, q), a * c, q);
    Distribute(a, b, c);
  }

  lemma Distribute(a: int, b: int, c: int)
    ensures a * (b + c) == a * b + a * c && a * (b - c) == a * b - a * c
  {
  }

  lemma TimesMinus(a: int, b: int, c: int, q: int)
    requires q > 0
    ensures Times(a, Minus(b, c, q), q) == Minus(Times(a, b, q), Times(a, c, q), q)
  {
    CongMod(b - c, q);
    CongMul(a, a, Minus(b, c, q), b - c, q);
    CongMod(a * b, q);
    CongMod(a * c, q);
    CongAdd(Times(a, b, q), a * b, Times(a, c, q), a * c, q);
    Distribute(a, b, c);
  }

  lemma PlusShuffles(a: int, b: int, c: int, d: int, q: int)
    requires q > 0
    ensures Plus(Plus(a, b, q), Plus(c, d, q), q) == Plus(Plus(a, c, q), Plus(b, d, q), q)
  {
    CongMod(a + b, q);
    CongMod(c + d, q);
    CongMod(a + c, q);
    CongMod(b + d, q);
    CongAdd(Plus(a, b, q), a + b, Plus(c, d, q), c + d, q);
    CongAdd(Plus(a, c, q), a + c, Plus(b, d, q), b + d, q);
  }

  lemma MinusUndoes(a: int, b: int, q: int)
    requires q > 0 && Residue(a, q)
    ensures Minus(Plus(a, b, q), b, q) == a
  {
    CongMod(a + b, q);
    CongAdd(Plus(a, b, q), a + b, b, b, q);
    ModUnique(a, 0, a, q);
  }

  lemma TimesOne(a: int, q: int)
    requires q > 1 && Residue(a, q)
    ensures Times(a, 1, q) == a && Times(1, a, q) == a
  {
    ModUnique(a, 0, a, q);
  }

  lemma TimesZero(a: int, q: int)
    requires q > 0
    ensures Times(a, 0, q) == 0 && Times(0, a, q) == 0
  {
    ModUnique(0, 0, 0, q);
  }

  /** There are no zero divisors. */
  lemma TimesNonZero(a: int, b: int, q: int)
    requires Prime(q) && Residue(a, q) && Residue(b, q)
    ensures Times(a, b, q) != 0 <==> a != 0 && b != 0
  {
    TimesZero(a, q);
    TimesZero(b, q);
    ModUnique(a, 0, a, q);
    ModUnique(b, 0, b, q);
    if Times(a, b, q) == 0 {
      Euclid(a, b, q);
    }
  }

  /** Multiples of a non-zero element are equal exactly when the factors are. */
  lemma TimesInjective(a: int, b: int, c: int, q: int)
    requires Prime(q) && Residue(a, q) && Residue(b, q) && Residue(c, q) && a != 0
    ensures Times(a, b, q) == Times(a, c, q) <==> b == c
  {
    if Times(a, b, q) == Times(a, c, q) {
      ModUnique(a, 0, a, q);
      assert a * b == b * a && a * c == c * a;
      Cancel(b, c, a, q);
      CongSmall(b, c, q);
    }
  }

  function Inverse(a: int, q: int): (i: int)
    requires Prime(q) && Residue(a, q) && a != 0
    ensures Residue(i, q) && i != 0 && Times(a, i, q) == 1
  {
    ModInverse(a, q)
  }

  /** A Schnorr response r + c*sk verifies: the commitment base*r is recomputed from base*sk. */
  lemma SchnorrRecomputes(base: int, sk: int, r: int, c: int, q: int)
    requires q > 0 && Residue(r, q)
    ensures Minus(Times(base, Plus(r, Times(c, sk, q), q), q), Times(Times(base, sk, q), c, q), q)
         == Times(base, r, q)
  {
    TimesPlus(base, r, Times(c, sk, q), q);
    TimesCommutes(c, sk, q);
    TimesAssociates(base, sk, c, q);
    MinusUndoes(Times(base, r, q), Times(base, Times(c, sk, q), q), q);
  }

  /** Responses computed on additive shares add up to the response under the summed shares. */
  lemma SchnorrShares(r1: int, r2: int, c: int, s1: int, s2: int, q: int)
    requires q > 0
    ensures Plus(Plus(r1, Times(c, s1, q), q), Plus(r2, Times(c, s2, q), q), q)
         == Plus(Plus(r1, r2, q), Times(c, Plus(s1, s2, q), q), q)
  {
    PlusShuffles(r1, Times(c, s1, q), r2, Times(c, s2, q), q);
    TimesPlus(c, s1, s2, q);
  }
}
