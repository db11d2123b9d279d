/** The card's byte arithmetic computes in the host's group: what the card answers is what the
    protocol's model of a card answers. The one exception, the third output of a commit with a
    basename, is decided exactly. */
module CardArithmetic {
  import opened Options
  import opened Versions
  import opened Modular
  import opened Residues
  import opened Bytes
  import opened Curve
  import opened RawCurve
  import opened ECMath
  import opened Ecdaa
  import CardSpec

  /** The card's point operations are ECMath's, on every operand. */
  ghost predicate Computes(env: CardSpec.CardEnv, c: Params)
    requires Sound(c)
  {
    && (forall s: Bytes, k: nat {:trigger env.mul(c.version, s, k)} ::
          |s| == c.G1Bytes() && k < Pow(256, 32) ==> env.mul(c.version, s, k) == MulBytes(c, s, k))
    && (forall s: Bytes, t: Bytes {:trigger env.add(c.version, s, t)} ::
          |s| == |t| == c.G1Bytes() ==> env.add(c.version, s, t) == AddBytes(c, s, t))
  }

  /** gen generates a group whose order is the prime r; associativity is taken on trust. */
  ghost predicate PrimeGroup(c: Params, gen: Point) {
    && Sound(c) && Prime(c.r) && Associative(c.b, c.p)
    && OnCurve(gen, c.b, c.p) && Multiple(c.r, gen, c.p).Infinity?
  }

  /** The host writes the group element with logarithm i as the card writes the i-fold sum of gen. */
  ghost predicate EncodesMultiples(su: Suite, c: Params, gen: Point)
    requires PrimeGroup(c, gen)
  {
    && su.version == c.version && su.q == c.r
    && forall i {:trigger su.encG1(i)} :: Residue(i, su.q) ==> su.encG1(i) == EncodePoint(Multiple(i, gen, c.p), c)
  }

  ghost predicate MultipliesAs(su: Suite, env: CardSpec.CardEnv)
    requires su.q > 0
  {
    forall v: int, k: nat {:trigger env.mul(su.version, su.encG1(v), k)} ::
      Residue(v, su.q) && k < Pow(256, 32) ==>
        env.mul(su.version, su.encG1(v), k) == Some(su.encG1(su.Mul(v, k)))
  }

  ghost predicate AddsAs(su: Suite, env: CardSpec.CardEnv)
    requires su.q > 0
  {
    forall u, v {:trigger env.add(su.version, su.encG1(u), su.encG1(v))} ::
      Residue(u, su.q) && Residue(v, su.q) ==>
        env.add(su.version, su.encG1(u), su.encG1(v)) == Some(su.encG1(su.Sum(u, v)))
  }

  /** Double-and-add on encoded points is multiplication of logarithms. */
  lemma CardMultiplies(su: Suite, env: CardSpec.CardEnv, c: Params, gen: Point, v: int, k: nat)
    requires PrimeGroup(c, gen) && EncodesMultiples(su, c, gen) && Computes(env, c)
    requires Residue(v, su.q) && k < Pow(256, 32)
    ensures env.mul(su.version, su.encG1(v), k) == Some(su.encG1(su.Mul(v, k)))
  {
    var pt := Multiple(v, gen, c.p);
    MultipleOnCurve(v, gen, c.b, c.p);
    PointRoundTrip(pt, c);
    LadderTotal(k, pt, c.p);
    LadderIsMultiple(k, pt, c.b, c.p);
    MultipleProduct(k, v, gen, c.b, c.p);
    var kv := NatProduct(k, v);
    MultipleResidue(kv, c.r, gen, c.b, c.p);
  }

  lemma CardAdds(su: Suite, env: CardSpec.CardEnv, c: Params, gen: Point, u: int, v: int)
    requires PrimeGroup(c, gen) && EncodesMultiples(su, c, gen) && Computes(env, c)
    requires Residue(u, su.q) && Residue(v, su.q)
    ensures env.add(su.version, su.encG1(u), su.encG1(v)) == Some(su.encG1(su.Sum(u, v)))
  {
    MultipleOnCurve(u, gen, c.b, c.p);
    MultipleOnCurve(v, gen, c.b, c.p);
    PointRoundTrip(Multiple(u, gen, c.p), c);
    PointRoundTrip(Multiple(v, gen, c.p), c);
    AddTotal(Multiple(u, gen, c.p), Multiple(v, gen, c.p), c.p);
    MultipleSum(u, v, gen, c.b, c.p);
    MultipleResidue(u + v, c.r, gen, c.b, c.p);
  }

  /** The affine byte arithmetic realises the group the protocol is stated over. */
  lemma ArithmeticRealisesGroup(su: Suite, env: CardSpec.CardEnv, c: Params, gen: Point)
    requires PrimeGroup(c, gen) && EncodesMultiples(su, c, gen) && Computes(env, c)
    ensures MultipliesAs(su, env) && AddsAs(su, env)
  {
    forall v: int, k: nat | Residue(v, su.q) && k < Pow(256, 32)
      ensures env.mul(su.version, su.encG1(v), k) == Some(su.encG1(su.Mul(v, k)))
    {
      CardMultiplies(su, env, c, gen, v, k);
    }
    forall u, v | Residue(u, su.q) && Residue(v, su.q)
      ensures env.add(su.version, su.encG1(u), su.encG1(v)) == Some(su.encG1(su.Sum(u, v)))
    {
      CardAdds(su, env, c, gen, u, v);
    }
  }

  // ----- The card keeps the contract of the protocol's card -----

  /** Scalars are written as 32 big-endian bytes. */
  ghost predicate ScalarsAs(su: Suite) {
    forall v {:trigger su.encScalar(v)} :: Residue(v, su.q) ==> su.encScalar(v) == ToBE(v, 32)
  }

  lemma ScalarBytes(su: Suite, v: int)
    requires ScalarsAs(su) && Residue(v, su.q) && su.q <= Pow(256, 32)
    ensures |su.encScalar(v)| == 32 && FromBE(su.encScalar(v)) == v < Pow(256, 32)
  {
    FitsBE(v, 32);
  }

  /** A card of the suite's curve, holding share sk. */
  ghost predicate CardOf(su: Suite, env: CardSpec.CardEnv, st: CardSpec.CardState, sk: int) {
    && su.Valid() && env.Valid() && ScalarsAs(su) && MultipliesAs(su, env)
    && env.order(su.version) == su.q
    && Residue(sk, su.q) && st.key == Some(CardSpec.CardKey(su.version, sk))
  }

  /** JOIN_COMMIT and JOIN_RESPOND, and the public key share, answer as the model card. */
  lemma JoinMatches(su: Suite, env: CardSpec.CardEnv, st: CardSpec.CardState, sk: int, base: int, rnd: nat, c: int)
    requires CardOf(su, env, st, sk) && Residue(base, su.q) && Residue(c, su.q)
    ensures CardSpec.PublicKeyShareStep(env, st, su.encG1(base)).reply == CardSpec.Ok(su.encG1(su.Mul(base, sk)))
    ensures var r := rnd % su.q;
            var committed := CardSpec.JoinCommitStep(env, st, su.encG1(base), rnd);
            && committed.reply == CardSpec.Ok(su.encG1(su.Mul(base, r)))
            && CardSpec.RespondStep(env, committed.state, CardSpec.Join, su.encScalar(c)).reply
               == CardSpec.Ok(su.encScalar(su.Sum(r, su.Mul(c, sk))))
  {
    var r := rnd % su.q;
    assert env.mul(su.version, su.encG1(base), sk) == Some(su.encG1(su.Mul(base, sk)));
    assert env.mul(su.version, su.encG1(base), r) == Some(su.encG1(su.Mul(base, r)));
    ResponseMatches(su, env, sk, r, c);
  }

  lemma ResponseMatches(su: Suite, env: CardSpec.CardEnv, sk: int, r: int, c: int)
    requires su.Valid() && env.Valid() && ScalarsAs(su) && env.order(su.version) == su.q
    requires Residue(sk, su.q) && Residue(r, su.q) && Residue(c, su.q)
    ensures FromBE(su.encScalar(c)) == c
    ensures ToBE(CardSpec.Response(r, c, sk, su.q), CardSpec.FR_BYTES) == su.encScalar(su.Sum(r, su.Mul(c, sk)))
  {
    ScalarBytes(su, c);
    CongMod(c * sk, su.q);
    CongAdd(r, r, su.Mul(c, sk), c * sk, su.q);
  }

  /** SIGN_COMMIT and SIGN_RESPOND without a basename. */
  lemma SignMatches(su: Suite, env: CardSpec.CardEnv, st: CardSpec.CardState, sk: int, s: int, rnd: nat, c: int)
    requires CardOf(su, env, st, sk) && Residue(s, su.q) && Residue(c, su.q)
    ensures var r := rnd % su.q;
            var committed := CardSpec.SignCommitStep(env, st, CardSpec.Plain, su.encG1(s), rnd);
            && committed.reply == CardSpec.Ok(su.encG1(su.Mul(s, r)))
            && CardSpec.RespondStep(env, committed.state, CardSpec.Sign, su.encScalar(c)).reply
               == CardSpec.Ok(su.encScalar(su.Sum(r, su.Mul(c, sk))))
  {
    var r := rnd % su.q;
    assert su.encG1(s)[..su.G1Length()] == su.encG1(s);
    assert env.mul(su.version, su.encG1(s), r) == Some(su.encG1(su.Mul(s, r)));
    ResponseMatches(su, env, sk, r, c);
  }

  /** With a basename, the first two outputs are the model card's; the third is a multiple by
      the same nonce of the basename's bytes as K_card has overlaid them. */
  lemma BasenameCommitMatches(su: Suite, env: CardSpec.CardEnv, st: CardSpec.CardState, sk: int, s: int, base: int,
                              rnd: nat)
    requires CardOf(su, env, st, sk) && Residue(s, su.q) && Residue(base, su.q)
    ensures var k, r, g := CardSpec.CardKey(su.version, sk), rnd % su.q, su.G1Length();
            var out := CardSpec.CommitBytes(env, k, su.encG1(s), Some(su.encG1(base)), r);
            var third := env.mul(su.version, CardSpec.Overlaid(su.encG1(su.Mul(base, sk)), su.encG1(base)), r);
            && (out.Some? <==> third.Some?)
            && (out.Some? ==> out.value == su.encG1(su.Mul(s, r)) + su.encG1(su.Mul(base, sk)) + third.value)
  {
    var r := rnd % su.q;
    assert env.mul(su.version, su.encG1(s), r) == Some(su.encG1(su.Mul(s, r)));
    assert env.mul(su.version, su.encG1(base), sk) == Some(su.encG1(su.Mul(base, sk)));
  }

  // ----- A commit that throws -----

  /** JOIN_COMMIT on BN254 with the coordinates (0, p): the nonce has been drawn when the first
      doubling throws, so an open session is replaced although the command fails. */
  lemma FaultReplacesSession(env: CardSpec.CardEnv, st: CardSpec.CardState, rnd: nat)
    requires env.Valid() && Sound(BN254_PARAMS) && Computes(env, BN254_PARAMS)
    requires st.key.Some? && st.key.value.version == BN254 && rnd % env.order(BN254) >= 2
    ensures var data := [0x04] + ToBE(0, 32) + ToBE(BN254_PARAMS.p, 32);
            CardSpec.JoinCommitStep(env, st, data, rnd)
              == CardSpec.Outcome(st.(personalized := true,
                                      session := CardSpec.Open(CardSpec.Join, rnd % env.order(BN254))),
                                  CardSpec.Fault(true))
  {
    var c, r := BN254_PARAMS, rnd % env.order(BN254);
    var data := [0x04] + ToBE(0, 32) + ToBE(c.p, 32);
    VerticalBytes(c, r);
    assert env.mul(BN254, data, r) == MulBytes(c, data, r) == None;
  }

  lemma VerticalBytes(c: Params, r: nat)
    requires c == BN254_PARAMS && Sound(c) && r >= 2
    ensures MulBytes(c, [0x04] + ToBE(0, 32) + ToBE(c.p, 32), r) == None
  {
    var data := [0x04] + ToBE(0, 32) + ToBE(c.p, 32);
    Fields([0x04], ToBE(0, 32), ToBE(c.p, 32));
    BelowField(c);
    FitsBE(0, 32);
    FitsBE(c.p, 32);
    assert DecodePoint(data, c) == Affine(0, c.p);
    ModUnique(c.p * 2, 2, 0, c.p);
    VerticalThrows(r, 0, c.p, c.p);
  }

  lemma BelowField(c: Params)
    requires c == BN254_PARAMS
    ensures 0 < c.p < Pow(256, 32)
  {
    Widths();
  }
}
