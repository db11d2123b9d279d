/** Signing with a basename over the card, from SIGN_COMMIT_BSN to the verifier: one verdict. */
module BasenameVerdict {
  import opened Options
  import opened Modular
  import opened Residues
  import opened Bytes
  import opened Curve
  import opened RawCurve
  import opened LadderFaults
  import opened ECMath
  import opened Ecdaa
  import opened EcdaaTheorems
  import opened Binding
  import opened SplitEcdaa
  import opened CardArithmetic
  import opened SwapAuth
  import opened CardProtocol
  import opened Overlap
  import opened CommitFaults
  import CardSpec

  /** The hash tells apart what the host hashed, with v as third output, and what the verifier does. */
  ghost predicate Apart(su: Suite, message: Bytes, cred: Credential, sk: int, base: int, v: int, r: int,
                        rHost: int, n: int)
    requires su.q > 0
  {
    var rSum, k := su.Sum(r, rHost), su.Mul(base, sk);
    var u := su.Mul(cred.b, rSum);
    var d := ChallengeInput(su, u, cred.b, cred.d, message, Some(Nym(su.Sum(v, su.Mul(base, rHost)), k, base)));
    var d' := ChallengeInput(su, u, cred.b, cred.d, message, Some(Nym(su.Mul(base, rSum), k, base)));
    Distinguishes(su, d, d') && Distinguishes(su, OuterInput(su, n, d), OuterInput(su, n, d'))
  }

  /** The verifier's challenge check passes exactly when the third output is the intended element. */
  lemma ChallengeDecides(su: Suite, message: Bytes, cred: Credential, sk: int, bsn: Bytes, v: int,
                         r: int, rHost: int, n: int)
    requires su.Valid() && CredentialOf(su, cred) && cred.d == su.Mul(cred.b, sk)
    requires Residue(sk, su.q) && Residue(v, su.q) && Residue(r, su.q) && Residue(rHost, su.q) && Residue(n, su.q)
    requires Apart(su, message, cred, sk, su.hashToG1(bsn), v, r, rHost, n)
    ensures var base := su.hashToG1(bsn);
            var g := NymSignature(su, message, cred, sk, base, v, r, rHost, n);
            ChallengeMatches(su, g, Some(bsn), message) <==> v == su.Mul(base, r)
  {
    var base, rSum, k := su.hashToG1(bsn), su.Sum(r, rHost), su.Mul(su.hashToG1(bsn), sk);
    ThirdOutputDecides(su, message, cred, sk, bsn, v, r, rHost, n);
    TimesPlus(base, r, rHost, su.q);
    var u := su.Mul(cred.b, rSum);
    ChallengeBinds(su, u, cred.b, cred.d, message, Some(Nym(su.Sum(v, su.Mul(base, rHost)), k, base)), n,
                   u, cred.b, cred.d, message, Some(Nym(su.Mul(base, rSum), k, base)), n);
  }

  /** What verify says to the signature assembled with third output v. */
  lemma AssembledVerdict(su: Suite, message: Bytes, cred: Credential, x: int, y: int, sk: int, bsn: Bytes, v: int,
                         r: int, rHost: int, n: int)
    requires su.Valid() && message != [] && bsn != []
    requires Residue(x, su.q) && Residue(y, su.q) && y != 0 && HonestCredential(su, cred, x, y, sk)
    requires Residue(sk, su.q) && Residue(v, su.q) && Residue(r, su.q) && Residue(rHost, su.q) && Residue(n, su.q)
    requires Apart(su, message, cred, sk, su.hashToG1(bsn), v, r, rHost, n)
    ensures var gpk := GenerateIssuerKeypair(su, x, y).publicKey;
            var g := NymSignature(su, message, cred, sk, su.hashToG1(bsn), v, r, rHost, n);
            |gpk| == su.GroupKeyLength()
            && (Verify(su, gpk, Some(bsn), None, EncodeSignature(su, g), message)
                <==> v == su.Mul(su.hashToG1(bsn), r) && Live(su, cred, x, y, sk))
  {
    var base, g := su.hashToG1(bsn), NymSignature(su, message, cred, sk, su.hashToG1(bsn), v, r, rHost, n);
    ThirdOutputDecides(su, message, cred, sk, bsn, v, r, rHost, n);
    ChallengeDecides(su, message, cred, sk, bsn, v, r, rHost, n);
    VerifyHonest(su, message, cred, x, y, sk, Some(bsn), su.Sum(r, rHost), n, None);
    SignatureRoundTrip(su, g);
  }

  /** No component of the credential is the identity. */
  ghost predicate Live(su: Suite, cred: Credential, x: int, y: int, sk: int)
    requires Prime(su.q) && Residue(y, su.q) && y != 0
  {
    cred.b != 0 && x != 0 && sk != 0 && su.Sum(Inverse(y, su.q), sk) != 0
  }

  /** The element the host decodes from the third output, zero if there is none. */
  ghost function ThirdElement(su: Suite, env: CardSpec.CardEnv, bsn: Bytes, cardSk: int, r: nat): int
    requires su.Valid()
  {
    var third := ThirdOutput(su, env, bsn, cardSk, r);
    if third.Some? && su.decG1(third.value).Some? then su.decG1(third.value).value else 0
  }

  /** The run ends in a signature that verifies. */
  ghost predicate Accepted(su: Suite, out: SplitOutcome, x: int, y: int, bsn: Bytes, message: Bytes)
    requires su.Valid() && |GenerateIssuerKeypair(su, x, y).publicKey| >= su.GroupKeyLength()
  {
    out.Signed? && Verify(su, GenerateIssuerKeypair(su, x, y).publicKey, Some(bsn), None,
                          EncodeSignature(su, out.signature), message)
  }

  /** Bytes that encode an element are those that decode to it. */
  lemma EncodesElement(su: Suite, bytes: Option<Bytes>, v: int)
    requires su.Valid() && DecodesOnlyEncodings(su) && Residue(v, su.q)
    requires bytes.Some? ==> |bytes.value| == su.G1Length()
    ensures bytes == Some(su.encG1(v)) <==> bytes.Some? && su.decG1(bytes.value) == Some(v)
  {
    assert su.decG1(su.encG1(v)) == Some(v);
  }

  /** The run over the card is accepted exactly when the third output is the intended element's
      encoding and the credential is live; otherwise it fails or the verifier refuses. */
  lemma OutcomeVerdict(su: Suite, env: CardSpec.CardEnv, st: CardSpec.CardState, cardSk: int, hostSk: int,
                       message: Bytes, cred: Credential, x: int, y: int, bsn: Bytes,
                       auth: Option<SwapAuthorization>, rnd: nat, rHost: int, n: int)
    requires CardOf(su, env, st, cardSk) && DecodesOnlyEncodings(su) && Passes(su, env, st, bsn, auth)
    requires Residue(hostSk, su.q) && Residue(rHost, su.q) && Residue(n, su.q) && message != [] && bsn != []
    requires Residue(x, su.q) && Residue(y, su.q) && y != 0
    requires HonestCredential(su, cred, x, y, su.Sum(cardSk, hostSk))
    requires Apart(su, message, cred, su.Sum(cardSk, hostSk), su.hashToG1(bsn),
                   ThirdElement(su, env, bsn, cardSk, rnd % su.q), rnd % su.q, rHost, n)
    ensures |GenerateIssuerKeypair(su, x, y).publicKey| == su.GroupKeyLength()
    ensures var r := rnd % su.q;
            var out := SignOverCard(su, env, st, hostSk, message, cred, bsn, auth, rnd, rHost, n);
            var right := ThirdOutput(su, env, bsn, cardSk, r) == Some(su.encG1(su.Mul(su.hashToG1(bsn), r)));
            Accepted(su, out, x, y, bsn, message) <==> right && Live(su, cred, x, y, su.Sum(cardSk, hostSk))
  {
    var base, r, sk := su.hashToG1(bsn), rnd % su.q, su.Sum(cardSk, hostSk);
    var third := ThirdOutput(su, env, bsn, cardSk, r);
    CardSignsWithBasename(su, env, st, cardSk, hostSk, message, cred, bsn, auth, rnd, rHost, n);
    GroupKeyRoundTrip(su, x, y);
    EncodesElement(su, third, su.Mul(base, r));
    if third.Some? && su.decG1(third.value).Some? {
      AssembledVerdict(su, message, cred, x, y, sk, bsn, su.decG1(third.value).value, r, rHost, n);
    }
  }

  // ----- The third output in terms of points -----

  /** The basename point that the card works on. */
  ghost function BasePoint(su: Suite, c: Params, gen: Point, bsn: Bytes): (s: Point)
    requires su.Valid() && PrimeGroup(c, gen)
    ensures Canonical(s, c.p)
  {
    Multiple(su.hashToG1(bsn), gen, c.p)
  }

  lemma MultiplesAnnihilated(c: Params, gen: Point, i: nat)
    requires PrimeGroup(c, gen)
    ensures BasenameGroup(c, Multiple(i, gen, c.p))
  {
    MultipleOnCurve(i, gen, c.b, c.p);
    MultipleProduct(c.r, i, gen, c.b, c.p);
    MultipleProduct(i, c.r, gen, c.b, c.p);
    var n := NatProduct(c.r, i);
    MultipleOfIdentity(i, c.p);
  }

  /** Elements and points: the product of logarithms is the multiple of the point. */
  lemma PointOfProduct(su: Suite, c: Params, gen: Point, i: int, k: nat)
    requires PrimeGroup(c, gen) && EncodesMultiples(su, c, gen) && Residue(i, su.q)
    ensures Multiple(k, Multiple(i, gen, c.p), c.p) == Multiple(su.Mul(i, k), gen, c.p)
    ensures Ladder(k, Multiple(i, gen, c.p), c.p) == Multiple(k, Multiple(i, gen, c.p), c.p)
  {
    MultipleOnCurve(i, gen, c.b, c.p);
    LadderIsMultiple(k, Multiple(i, gen, c.p), c.b, c.p);
    MultipleProduct(k, i, gen, c.b, c.p);
    var n := NatProduct(k, i);
    MultipleResidue(n, c.r, gen, c.b, c.p);
  }

  lemma ThirdBytes(su: Suite, env: CardSpec.CardEnv, c: Params, gen: Point, bsn: Bytes, cardSk: int, r: nat)
    requires su.Valid() && PrimeGroup(c, gen) && EncodesMultiples(su, c, gen) && Computes(env, c)
    requires Residue(cardSk, su.q) && r < su.q
    ensures ThirdOutput(su, env, bsn, cardSk, r) == MulBytes(c, OverlaidBytes(c, BasePoint(su, c, gen, bsn), cardSk), r)
  {
    var base, pt := su.hashToG1(bsn), BasePoint(su, c, gen, bsn);
    PointOfProduct(su, c, gen, base, cardSk);
    assert OverlaidBytes(c, pt, cardSk) == CardSpec.Overlaid(su.encG1(su.Mul(base, cardSk)), su.encG1(base));
  }

  /** A run off the curve never leaves the encoding of an affine point of ours. */
  lemma OffCurveEncoding(c: Params, seen: Point, w: Point, r: nat)
    requires Sound(c) && c.version.BN254? && seen.Affine? && Fits(seen, c) && !OnCurve(Reduce(seen, c.p), c.b, c.p)
    requires w.Affine? && OnCurve(w, c.b, c.p)
    ensures var t := TryLadder(r, seen, c.p);
            t.Some? ==> Fits(t.value, c) && EncodePoint(t.value, c) != EncodePoint(w, c)
  {
    LadderReduced(r, seen, c.p);
    OffCurve(c, seen, w, r);
    var t := TryLadder(r, seen, c.p);
    if t.Some? { UncompressedSeparates(t.value, w, c); }
  }

  lemma ThirdOutputPoints(su: Suite, env: CardSpec.CardEnv, c: Params, gen: Point, bsn: Bytes, cardSk: int, r: nat)
    requires su.Valid() && PrimeGroup(c, gen) && EncodesMultiples(su, c, gen) && Computes(env, c)
    requires Residue(cardSk, su.q) && r < su.q
    ensures var base := su.hashToG1(bsn);
            var pt := BasePoint(su, c, gen, bsn);
            var right := ThirdOutput(su, env, bsn, cardSk, r) == Some(su.encG1(su.Mul(base, r)));
            right <==> DoesFor(c, Seen(c, pt, cardSk), pt, r)
  {
    var base, pt := su.hashToG1(bsn), BasePoint(su, c, gen, bsn);
    MultiplesAnnihilated(c, gen, base);
    PointOfProduct(su, c, gen, base, r);
    ThirdBytes(su, env, c, gen, bsn, cardSk, r);
    Intended(c, pt, r);
    ThirdOutputIff(env, c, pt, cardSk, r);
    assert env.mul(c.version, EncodePoint(pt, c), r) == MulBytes(c, EncodePoint(pt, c), r);
  }

  /** The verdict: on either curve a signature made with a basename over the card is accepted exactly
      when what K_card has left of the basename point still does for it under the card's nonce, and
      the credential is live. */
  lemma BasenameVerdict(su: Suite, env: CardSpec.CardEnv, c: Params, gen: Point, st: CardSpec.CardState,
                        cardSk: int, hostSk: int, message: Bytes, cred: Credential, x: int, y: int, bsn: Bytes,
                        auth: Option<SwapAuthorization>, rnd: nat, rHost: int, n: int)
    requires PrimeGroup(c, gen) && EncodesMultiples(su, c, gen) && Computes(env, c)
    requires CardOf(su, env, st, cardSk) && DecodesOnlyEncodings(su) && Passes(su, env, st, bsn, auth)
    requires Residue(hostSk, su.q) && Residue(rHost, su.q) && Residue(n, su.q) && message != [] && bsn != []
    requires Residue(x, su.q) && Residue(y, su.q) && y != 0
    requires HonestCredential(su, cred, x, y, su.Sum(cardSk, hostSk))
    requires Apart(su, message, cred, su.Sum(cardSk, hostSk), su.hashToG1(bsn),
                   ThirdElement(su, env, bsn, cardSk, rnd % su.q), rnd % su.q, rHost, n)
    ensures |GenerateIssuerKeypair(su, x, y).publicKey| == su.GroupKeyLength()
    ensures var pt := BasePoint(su, c, gen, bsn);
            var out := SignOverCard(su, env, st, hostSk, message, cred, bsn, auth, rnd, rHost, n);
            var doesFor := DoesFor(c, Seen(c, pt, cardSk), pt, rnd % su.q);
            Accepted(su, out, x, y, bsn, message) <==> doesFor && Live(su, cred, x, y, su.Sum(cardSk, hostSk))
  {
    OutcomeVerdict(su, env, st, cardSk, hostSk, message, cred, x, y, bsn, auth, rnd, rHost, n);
    ThirdOutputPoints(su, env, c, gen, bsn, cardSk, rnd % su.q);
  }

  /** If the run on coordinates off the curve ends in an element's encoding, it is the identity's. */
  lemma OnlyIdentityDecodes(su: Suite, c: Params, gen: Point, seen: Point, v: int, r: nat)
    requires su.Valid() && PrimeGroup(c, gen) && EncodesMultiples(su, c, gen) && Residue(v, su.q)
    requires c.version.BN254? && seen.Affine? && Fits(seen, c) && !OnCurve(Reduce(seen, c.p), c.b, c.p)
    requires var t := TryLadder(r, seen, c.p);
             t.Some? && Fits(t.value, c) && EncodePoint(t.value, c) == su.encG1(v)
    ensures su.encG1(v) == su.encG1(0)
  {
    MultipleOnCurve(v, gen, c.b, c.p);
    if Multiple(v, gen, c.p).Infinity? {
      assert Multiple(0, gen, c.p) == Infinity;
    } else {
      OffCurveEncoding(c, seen, Multiple(v, gen, c.p), r);
    }
  }

  lemma OffCurveDecodes(su: Suite, env: CardSpec.CardEnv, c: Params, gen: Point, bsn: Bytes, cardSk: int, r: nat)
    requires su.Valid() && PrimeGroup(c, gen) && EncodesMultiples(su, c, gen) && Computes(env, c) && c.version.BN254?
    requires DecodesOnlyEncodings(su) && Residue(cardSk, su.q) && r < su.q
    requires var seen := Seen(c, BasePoint(su, c, gen, bsn), cardSk);
             seen.Affine? && !OnCurve(Reduce(seen, c.p), c.b, c.p)
    ensures var third := ThirdOutput(su, env, bsn, cardSk, r);
            && (third.Some? && |third.value| == su.G1Length() && su.decG1(third.value).Some?
                ==> third == Some(su.encG1(0)))
  {
    var seen, third := Seen(c, BasePoint(su, c, gen, bsn), cardSk), ThirdOutput(su, env, bsn, cardSk, r);
    ThirdBytes(su, env, c, gen, bsn, cardSk, r);
    LadderReduced(r, seen, c.p);
    if third.Some? && |third.value| == su.G1Length() && su.decG1(third.value).Some? {
      OnlyIdentityDecodes(su, c, gen, seen, su.decG1(third.value).value, r);
    }
  }

  /** On BN254 a basename whose overlaid bytes are off the curve ends the run, unless the multiple on
      that other curve happens to be its identity: the host does not decode what the card answers. */
  lemma OffCurveFails(su: Suite, env: CardSpec.CardEnv, c: Params, gen: Point, st: CardSpec.CardState,
                      cardSk: int, hostSk: int, message: Bytes, cred: Credential, bsn: Bytes,
                      auth: Option<SwapAuthorization>, rnd: nat, rHost: int, n: int)
    requires PrimeGroup(c, gen) && EncodesMultiples(su, c, gen) && Computes(env, c) && c.version.BN254?
    requires CardOf(su, env, st, cardSk) && DecodesOnlyEncodings(su) && Passes(su, env, st, bsn, auth)
    requires CredentialOf(su, cred) && Residue(hostSk, su.q) && Residue(rHost, su.q) && Residue(n, su.q)
    requires var seen := Seen(c, BasePoint(su, c, gen, bsn), cardSk);
             seen.Affine? && !OnCurve(Reduce(seen, c.p), c.b, c.p)
    ensures SignOverCard(su, env, st, hostSk, message, cred, bsn, auth, rnd, rHost, n).Failed?
         || ThirdOutput(su, env, bsn, cardSk, rnd % su.q) == Some(su.encG1(0))
  {
    var r := rnd % su.q;
    CardSignsWithBasename(su, env, st, cardSk, hostSk, message, cred, bsn, auth, rnd, rHost, n);
    OffCurveDecodes(su, env, c, gen, bsn, cardSk, r);
  }

  // ----- When the card throws -----

  /** The card throws on a well-formed commit with a basename exactly when the ladder does on what
      K_card has left, and never when that reduces to a point of the basename's group. */
  lemma ThirdOutputThrows(su: Suite, env: CardSpec.CardEnv, c: Params, gen: Point, bsn: Bytes, cardSk: int, r: nat)
    requires su.Valid() && PrimeGroup(c, gen) && EncodesMultiples(su, c, gen) && Computes(env, c)
    requires Residue(cardSk, su.q) && r < su.q
    ensures var seen := Seen(c, BasePoint(su, c, gen, bsn), cardSk);
            && (ThirdOutput(su, env, bsn, cardSk, r).None? <==> Trips(r, seen, c.p))
            && (BasenameGroup(c, Reduce(seen, c.p)) ==> ThirdOutput(su, env, bsn, cardSk, r).Some?)
  {
    var bytes := OverlaidBytes(c, BasePoint(su, c, gen, bsn), cardSk);
    ThirdBytes(su, env, c, gen, bsn, cardSk, r);
    MulThrows(c, bytes, r);
    if BasenameGroup(c, Reduce(DecodePoint(bytes, c), c.p)) { HarmlessOperands(c, bytes, r); }
  }

  // ----- Recovery -----

  /** After a basename hit the host asks the swap server for a token and commits again. From the
      state the refusal has left, the second attempt is decided as the first would have been without
      the filter: the token opens the session, the overlaid bytes decide the rest. */
  lemma RecoveryVerdict(su: Suite, env: CardSpec.CardEnv, c: Params, gen: Point, st: CardSpec.CardState,
                        cardSk: int, hostSk: int, message: Bytes, cred: Credential, x: int, y: int, bsn: Bytes,
                        swapSk: int, rAuth: int, rnd: nat, rnd': nat, rHost: int, rHost': int, n: int, n': int)
    requires PrimeGroup(c, gen) && EncodesMultiples(su, c, gen) && Computes(env, c) && Agrees(su, env)
    requires CardOf(su, env, st, cardSk) && DecodesOnlyEncodings(su) && !FilterPasses(su, env, st, bsn)
    requires Residue(swapSk, su.q) && Residue(rAuth, su.q) && st.swapKey == Some(su.encG1(su.Mul(1, swapSk)))
    requires Residue(hostSk, su.q) && Residue(rHost', su.q) && Residue(n', su.q) && message != [] && bsn != []
    requires Residue(x, su.q) && Residue(y, su.q) && y != 0
    requires HonestCredential(su, cred, x, y, su.Sum(cardSk, hostSk))
    requires Apart(su, message, cred, su.Sum(cardSk, hostSk), su.hashToG1(bsn),
                   ThirdElement(su, env, bsn, cardSk, rnd' % su.q), rnd' % su.q, rHost', n')
    ensures SignOverCard(su, env, st, hostSk, message, cred, bsn, None, rnd, rHost, n) == Failed(BloomFilterHit)
    ensures |GenerateIssuerKeypair(su, x, y).publicKey| == su.GroupKeyLength()
    ensures var st' := CommitFor(su, env, st, cred, bsn, None, rnd).state;
            var token := SwapAuthCreate(su, su.encScalar(swapSk), st.swapKey.value, su.encG1(su.hashToG1(bsn)), rAuth);
            var pt := BasePoint(su, c, gen, bsn);
            var doesFor := DoesFor(c, Seen(c, pt, cardSk), pt, rnd' % su.q);
            && token.Some? && st'.key == st.key
            && (Accepted(su, SignOverCard(su, env, st', hostSk, message, cred, bsn, token, rnd', rHost', n'),
                         x, y, bsn, message)
                <==> doesFor && Live(su, cred, x, y, su.Sum(cardSk, hostSk)))
  {
    CardRefusesBasename(su, env, st, cardSk, hostSk, message, cred, bsn, rnd, rHost, n);
    CreatedAccepted(su, env, swapSk, su.hashToG1(bsn), rAuth);
    var st' := CommitFor(su, env, st, cred, bsn, None, rnd).state;
    var token := SwapAuthCreate(su, su.encScalar(swapSk), st.swapKey.value, su.encG1(su.hashToG1(bsn)), rAuth);
    assert Passes(su, env, st', bsn, token);
    BasenameVerdict(su, env, c, gen, st', cardSk, hostSk, message, cred, x, y, bsn, token, rnd', rHost', n');
  }
}
