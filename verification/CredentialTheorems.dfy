/** What a credential is, whoever made it: which ones the pairings accept, what issuing and
    re-randomising do to each component, and which signatures verify. */
module CredentialTheorems {
  import opened Options
  import opened Modular
  import opened Residues
  import opened Bytes
  import opened Ecdaa
  import opened EcdaaTheorems

  // ----- The pairing equations -----

  /** The pairings hold exactly when the exponents satisfy a*y = b and c = (a + d)*x modulo q. */
  lemma PairingsIff(su: Suite, k: Credential, x: int, y: int)
    requires su.Valid() && CredentialOf(su, k)
    ensures PairingsHold(su, k, GroupKey(x, y)) <==> (k.a * y) % su.q == k.b && ((k.a + k.d) % su.q * x) % su.q == k.c
  {
    TimesOne(k.b, su.q);
    TimesOne(k.c, su.q);
  }

  /** The secret that a credential with b not the identity is for. */
  function SecretOf(su: Suite, k: Credential): (sk: int)
    requires Prime(su.q) && Residue(k.b, su.q) && k.b != 0
    ensures Residue(sk, su.q)
  {
    su.Mul(Inverse(k.b, su.q), k.d)
  }

  lemma SecretIff(su: Suite, k: Credential, sk: int)
    requires su.Valid() && CredentialOf(su, k) && k.b != 0 && Residue(sk, su.q)
    ensures k.d == su.Mul(k.b, sk) <==> sk == SecretOf(su, k)
  {
    var q, i := su.q, Inverse(k.b, su.q);
    TimesAssociates(k.b, i, k.d, q);
    TimesOne(k.d, q);
    TimesInjective(k.b, sk, SecretOf(su, k), q);
  }

  lemma QuotientIff(a: int, b: int, y: int, q: int)
    requires Prime(q) && Residue(a, q) && Residue(b, q) && Residue(y, q) && y != 0
    ensures Times(a, y, q) == b <==> a == Times(b, Inverse(y, q), q)
  {
    var i := Inverse(y, q);
    TimesAssociates(a, y, i, q);
    TimesAssociates(b, i, y, q);
    TimesCommutes(i, y, q);
    TimesOne(a, q);
    TimesOne(b, q);
  }

  /** On components that are not the identity the pairings hold exactly when the issuer key is usable
      and the credential is an honest one for some secret; that secret is unique. */
  lemma HonestIff(su: Suite, k: Credential, x: int, y: int)
    requires su.Valid() && CredentialOf(su, k) && Residue(x, su.q) && Residue(y, su.q) && k.a != 0 && k.b != 0
    ensures PairingsHold(su, k, GroupKey(x, y)) <==> y != 0 && HonestCredential(su, k, x, y, SecretOf(su, k))
    ensures y != 0 ==> forall sk :: Residue(sk, su.q) && HonestCredential(su, k, x, y, sk) ==> sk == SecretOf(su, k)
  {
    PairingsIff(su, k, x, y);
    SecretIff(su, k, SecretOf(su, k));
    if y == 0 {
      TimesZero(k.a, su.q);
    } else {
      QuotientIff(k.a, k.b, y, su.q);
      forall sk | Residue(sk, su.q) && HonestCredential(su, k, x, y, sk) ensures sk == SecretOf(su, k) {
        SecretIff(su, k, sk);
      }
    }
  }

  /** credential_in_group, for every credential and group key: exactly the strings that are long
      enough, decode, and hold what an issuer with that key gives out for some secret. */
  lemma InGroupIff(su: Suite, cred: Bytes, gpk: Bytes)
    requires su.Valid()
    ensures CredentialInGroup(su, cred, gpk)
       <==> |cred| >= su.CredentialLength() && |gpk| >= su.GroupKeyLength()
            && DecodeCredential(su, cred).Some? && DecodeGroupKey(su, gpk).Some?
            && IssuedUnder(su, DecodeCredential(su, cred).value, DecodeGroupKey(su, gpk).value)
  {
    if |cred| >= su.CredentialLength() && |gpk| >= su.GroupKeyLength()
       && DecodeCredential(su, cred).Some? && DecodeGroupKey(su, gpk).Some? {
      DecodedCredential(su, cred);
      IssuedUnderIff(su, DecodeCredential(su, cred).value, DecodeGroupKey(su, gpk).value);
    }
  }

  /** The same by the components: on decoded strings both equations, with a and b not the identity. */
  lemma InGroupEquations(su: Suite, cred: Bytes, gpk: Bytes, k: Credential, x: int, y: int)
    requires su.Valid() && |cred| >= su.CredentialLength() && |gpk| >= su.GroupKeyLength()
    requires DecodeCredential(su, cred) == Some(k) && DecodeGroupKey(su, gpk) == Some(GroupKey(x, y))
    ensures CredentialInGroup(su, cred, gpk)
       <==> k.a != 0 && k.b != 0 && (k.a * y) % su.q == k.b && ((k.a + k.d) % su.q * x) % su.q == k.c
  {
    DecodedCredential(su, cred);
    PairingsIff(su, k, x, y);
  }

  /** An honest credential for some secret, not scaled by zero. */
  ghost predicate IssuedUnder(su: Suite, k: Credential, gpk: GroupKey)
    requires Prime(su.q)
  {
    Residue(gpk.y, su.q) && gpk.y != 0 && k.b != 0
    && exists sk {:trigger HonestCredential(su, k, gpk.x, gpk.y, sk)} ::
         Residue(sk, su.q) && HonestCredential(su, k, gpk.x, gpk.y, sk)
  }

  lemma IssuedUnderIff(su: Suite, k: Credential, gpk: GroupKey)
    requires su.Valid() && CredentialOf(su, k) && Residue(gpk.x, su.q) && Residue(gpk.y, su.q)
    ensures k.a != 0 && k.b != 0 && PairingsHold(su, k, gpk) <==> IssuedUnder(su, k, gpk)
  {
    if k.a != 0 && k.b != 0 {
      HonestIff(su, k, gpk.x, gpk.y);
    } else if gpk.y != 0 {
      TimesNonZero(k.b, Inverse(gpk.y, su.q), su.q);
    }
  }

  lemma DecodedGroupKey(su: Suite, gpk: Bytes)
    requires su.Valid() && |gpk| >= su.GroupKeyLength() && DecodeGroupKey(su, gpk).Some?
    ensures var key := DecodeGroupKey(su, gpk).value; Residue(key.x, su.q) && Residue(key.y, su.q)
  {
    assert su.decG2(gpk[..su.G2Length()]).Some? && su.decG2(gpk[su.G2Length()..2 * su.G2Length()]).Some?;
  }

  // ----- Which signatures verify -----

  ghost predicate HonestUnder(su: Suite, k: Credential, gpk: GroupKey, sk: int)
    requires Prime(su.q)
  {
    Residue(gpk.y, su.q) && gpk.y != 0 && Residue(sk, su.q) && HonestCredential(su, k, gpk.x, gpk.y, sk)
  }

  /** The nonce that would explain a response s to challenge c under secret sk. */
  function NonceOf(su: Suite, g: Signature, sk: int): int
    requires su.q > 0
  {
    Minus(g.s, su.Mul(g.c, sk), su.q)
  }

  lemma ResponseExplained(base: int, sk: int, s: int, c: int, q: int)
    requires q > 0 && Residue(s, q)
    ensures Minus(Times(base, s, q), Times(Times(base, sk, q), c, q), q) == Times(base, Minus(s, Times(c, sk, q), q), q)
    ensures Plus(Minus(s, Times(c, sk, q), q), Times(c, sk, q), q) == s
  {
    TimesMinus(base, s, Times(c, sk, q), q);
    TimesCommutes(c, sk, q);
    TimesAssociates(base, sk, c, q);
    var t := Times(c, sk, q);
    CongMod(s - t, q);
    CongAdd(Minus(s, t, q), s - t, t, t, q);
    ModUnique(s, 0, s, q);
  }

  /** What verify demands beside the credential: a challenge that fits the commitment S*r. */
  ghost predicate Answers(su: Suite, g: Signature, sk: int, basename: Option<Bytes>, m: Bytes)
    requires su.q > 0 && (basename.Some? ==> g.k.Some?)
  {
    var nym := if basename.None? then None else
               var base := su.hashToG1(basename.value);
               Some(Nym(Minus(su.Mul(base, g.s), su.Mul(g.k.value, g.c), su.q), g.k.value, base));
    g.c == Challenge(su, su.Mul(g.cred.b, NonceOf(su, g, sk)), g.cred.b, g.cred.d, m, nym, g.n)
  }

  ghost predicate LiveUnder(su: Suite, k: Credential, gpk: GroupKey, sk: int)
    requires Prime(su.q)
  {
    HonestUnder(su, k, gpk, sk) && k.b != 0 && gpk.x != 0 && sk != 0 && su.Sum(Inverse(gpk.y, su.q), sk) != 0
  }

  /** verify, for every input: it accepts exactly the strings that decode and carry an honest
      credential of the group, with no component the identity, for some secret, together with a
      challenge that fits the commitment made with the nonce this secret explains. */
  lemma VerifyIff(su: Suite, gpk: Bytes, basename: Option<Bytes>, required: Option<Bytes>, sig: Bytes, m: Bytes)
    requires su.Valid() && |gpk| >= su.GroupKeyLength()
    ensures Verify(su, gpk, basename, required, sig, m)
       <==> m != [] && |sig| >= (if basename.Some? then su.SignatureWithNymLength() else su.SignatureLength())
            && DecodeGroupKey(su, gpk).Some? && DecodeSignature(su, sig, basename.Some?).Some?
            && var key, g := DecodeGroupKey(su, gpk).value, DecodeSignature(su, sig, basename.Some?).value;
               && (basename.Some? ==> g.k.Some?)
               && (required.Some? ==> required == Some(EncodeCredential(su, g.cred)))
               && exists sk {:trigger LiveUnder(su, g.cred, key, sk)} ::
                    LiveUnder(su, g.cred, key, sk) && Answers(su, g, sk, basename, m)
  {
    if m != [] && |sig| >= (if basename.Some? then su.SignatureWithNymLength() else su.SignatureLength())
       && DecodeGroupKey(su, gpk).Some? && DecodeSignature(su, sig, basename.Some?).Some? {
      var key, g := DecodeGroupKey(su, gpk).value, DecodeSignature(su, sig, basename.Some?).value;
      DecodedGroupKey(su, gpk);
      DecodedParts(su, sig, basename.Some?);
      VerifyDecoded(su, gpk, basename, required, sig, m, key, g);
      DecodedVerdict(su, g, key, basename, m);
    }
  }

  /** verify, once everything has decoded. */
  lemma VerifyDecoded(su: Suite, gpk: Bytes, basename: Option<Bytes>, required: Option<Bytes>, sig: Bytes, m: Bytes,
                      key: GroupKey, g: Signature)
    requires su.Valid() && |gpk| >= su.GroupKeyLength() && DecodeGroupKey(su, gpk) == Some(key) && m != []
    requires |sig| >= if basename.Some? then su.SignatureWithNymLength() else su.SignatureLength()
    requires DecodeSignature(su, sig, basename.Some?) == Some(g) && SignatureOf(su, g) && g.k.Some? == basename.Some?
    ensures Verify(su, gpk, basename, required, sig, m)
       <==> (required.Some? ==> required == Some(EncodeCredential(su, g.cred)))
            && g.cred.a != 0 && g.cred.b != 0 && g.cred.c != 0 && g.cred.d != 0
            && ChallengeMatches(su, g, basename, m) && PairingsHold(su, g.cred, key)
  {
    CredentialRoundTrip(su, g.cred);
  }

  lemma DecodedParts(su: Suite, sig: Bytes, withNym: bool)
    requires su.Valid() && |sig| >= if withNym then su.SignatureWithNymLength() else su.SignatureLength()
    requires DecodeSignature(su, sig, withNym).Some?
    ensures SignatureOf(su, DecodeSignature(su, sig, withNym).value)
    ensures DecodeSignature(su, sig, withNym).value.k.Some? == withNym
  {
    var l := su.G1Length();
    assert su.decScalar(sig[0..32]).Some? && su.decScalar(sig[32..64]).Some?;
    assert su.decScalar(sig[64 + 4 * l..96 + 4 * l]).Some?;
    assert su.decG1(sig[64..64 + l]).Some? && su.decG1(sig[64 + l..64 + 2 * l]).Some?;
    assert su.decG1(sig[64 + 2 * l..64 + 3 * l]).Some? && su.decG1(sig[64 + 3 * l..64 + 4 * l]).Some?;
  }

  lemma DecodedVerdict(su: Suite, g: Signature, key: GroupKey, basename: Option<Bytes>, m: Bytes)
    requires su.Valid() && SignatureOf(su, g) && Residue(key.x, su.q) && Residue(key.y, su.q)
    requires basename.Some? ==> g.k.Some?
    ensures (&& g.cred.a != 0 && g.cred.b != 0 && g.cred.c != 0 && g.cred.d != 0
             && ChallengeMatches(su, g, basename, m) && PairingsHold(su, g.cred, key))
       <==> exists sk {:trigger LiveUnder(su, g.cred, key, sk)} ::
              LiveUnder(su, g.cred, key, sk) && Answers(su, g, sk, basename, m)
  {
    var k := g.cred;
    if k.a != 0 && k.b != 0 && k.c != 0 && k.d != 0
       && ChallengeMatches(su, g, basename, m) && PairingsHold(su, k, key) {
      var sk := SecretOf(su, k);
      HonestIff(su, k, key.x, key.y);
      HonestNonIdentity(su, k, key.x, key.y, sk);
      AnswersIff(su, g, sk, basename, m);
      assert LiveUnder(su, k, key, sk);
    }
    if sk :| LiveUnder(su, k, key, sk) && Answers(su, g, sk, basename, m) {
      HonestPairings(su, k, key.x, key.y, sk);
      HonestNonIdentity(su, k, key.x, key.y, sk);
      AnswersIff(su, g, sk, basename, m);
    }
  }

  lemma AnswersIff(su: Suite, g: Signature, sk: int, basename: Option<Bytes>, m: Bytes)
    requires su.Valid() && SignatureOf(su, g) && g.cred.d == su.Mul(g.cred.b, sk) && (basename.Some? ==> g.k.Some?)
    ensures Answers(su, g, sk, basename, m) <==> ChallengeMatches(su, g, basename, m)
  {
    ResponseExplained(g.cred.b, sk, g.s, g.c, su.q);
  }

  /** Without a basename that is completeness and soundness in one: the accepted signatures are those
      that a holder of a live credential for some secret makes with some nonce. */
  lemma AcceptedIffSigned(su: Suite, gpk: Bytes, sig: Bytes, m: Bytes)
    requires su.Valid() && |gpk| >= su.GroupKeyLength() && DecodeGroupKey(su, gpk).Some?
    requires |sig| >= su.SignatureLength() && DecodeSignature(su, sig, false).Some?
    ensures var key, g := DecodeGroupKey(su, gpk).value, DecodeSignature(su, sig, false).value;
            && (Verify(su, gpk, None, None, sig, m)
                <==> m != [] && exists sk, r {:trigger HonestSignature(su, m, g.cred, sk, None, r, g.n)} ::
                       Residue(r, su.q) && LiveUnder(su, g.cred, key, sk)
                       && g == HonestSignature(su, m, g.cred, sk, None, r, g.n))
  {
    var key, g := DecodeGroupKey(su, gpk).value, DecodeSignature(su, sig, false).value;
    VerifyIff(su, gpk, None, None, sig, m);
    DecodedParts(su, sig, false);
    if sk :| LiveUnder(su, g.cred, key, sk) && Answers(su, g, sk, None, m) {
      var r := NonceOf(su, g, sk);
      ResponseExplained(g.cred.b, sk, g.s, g.c, su.q);
      assert g == HonestSignature(su, m, g.cred, sk, None, r, g.n);
    }
    if sk, r :| Residue(r, su.q) && LiveUnder(su, g.cred, key, sk)
                && g == HonestSignature(su, m, g.cred, sk, None, r, g.n) {
      MinusUndoes(r, su.Mul(g.c, sk), su.q);
      assert Answers(su, g, sk, None, m);
    }
  }

  /** Every accepted signature carries a credential issued under the group key. */
  lemma AcceptedWasIssued(su: Suite, gpk: Bytes, basename: Option<Bytes>, required: Option<Bytes>, sig: Bytes, m: Bytes)
    requires su.Valid() && |gpk| >= su.GroupKeyLength() && Verify(su, gpk, basename, required, sig, m)
    ensures IssuedUnder(su, DecodeSignature(su, sig, basename.Some?).value.cred, DecodeGroupKey(su, gpk).value)
  {
    VerifyIff(su, gpk, basename, required, sig, m);
    var key, g := DecodeGroupKey(su, gpk).value, DecodeSignature(su, sig, basename.Some?).value;
    var sk :| LiveUnder(su, g.cred, key, sk) && Answers(su, g, sk, basename, m);
    assert HonestCredential(su, g.cred, key.x, key.y, sk);
  }

  // ----- Which member keys are issued a credential -----

  /** The issuer's check accepts exactly the proofs that a holder of some secret makes with some
      nonce, under a base that is not the identity. */
  lemma ProofIff(su: Suite, k: int, c: int, s: int, nonce: Bytes)
    requires su.Valid() && Residue(k, su.q) && Residue(c, su.q) && Residue(s, su.q) && su.hashToG1(nonce) != 0
    ensures MemberProofHolds(su, k, c, s, nonce)
       <==> exists sk, r {:trigger Proves(su, sk, r, k, c, s, nonce)} :: Proves(su, sk, r, k, c, s, nonce)
  {
    var b := su.hashToG1(nonce);
    if MemberProofHolds(su, k, c, s, nonce) {
      var sk := su.Mul(Inverse(b, su.q), k);
      TimesAssociates(b, Inverse(b, su.q), k, su.q);
      TimesOne(k, su.q);
      ResponseExplained(b, sk, s, c, su.q);
      assert Proves(su, sk, Minus(s, su.Mul(c, sk), su.q), k, c, s, nonce);
    }
    if sk, r :| Proves(su, sk, r, k, c, s, nonce) {
      SchnorrRecomputes(b, sk, r, c, su.q);
    }
  }

  /** k, c, s are the key and proof that generate_wallet_keypair makes of secret sk and nonce r. */
  ghost predicate Proves(su: Suite, sk: int, r: int, k: int, c: int, s: int, nonce: Bytes)
    requires su.q > 0
  {
    var b := su.hashToG1(nonce);
    && Residue(sk, su.q) && Residue(r, su.q)
    && k == su.Mul(b, sk)
    && c == su.hashToScalar(su.encG1(su.Mul(b, r)) + su.encG1(b) + su.encG1(k) + nonce)
    && s == su.Sum(r, su.Mul(c, sk))
  }

  ghost predicate ProvedKey(su: Suite, memberKey: Bytes, nonce: Bytes, sk: int)
    requires su.q > 0 && |memberKey| >= su.MemberKeyLength()
  {
    exists r {:trigger ProvedWith(su, memberKey, nonce, sk, r)} :: ProvedWith(su, memberKey, nonce, sk, r)
  }

  ghost predicate ProvedWith(su: Suite, memberKey: Bytes, nonce: Bytes, sk: int, r: int)
    requires su.q > 0 && |memberKey| >= su.MemberKeyLength()
  {
    var g := su.G1Length();
    match (PointAt(su, memberKey, 0), ScalarAt(su, memberKey, g), ScalarAt(su, memberKey, g + SCALAR_LENGTH))
    case (Some(k), Some(c), Some(s)) => Proves(su, sk, r, k, c, s, nonce)
    case _ => false
  }

  /** A generated key is proved with the very draws it was generated from. */
  lemma GeneratedWith(su: Suite, nonce: Bytes, sk: int, r: int, n: int)
    requires su.Valid() && nonce != [] && Residue(sk, su.q) && Residue(r, su.q) && Residue(n, su.q)
    ensures var key := GenerateWalletKeypair(su, nonce, sk, r, n);
            && key.Some? && |key.value.publicKey| == su.MemberKeyLength()
            && ProvedWith(su, key.value.publicKey, nonce, sk, r)
            && key.value.publicKey[su.G1Length() + 64..] == su.encScalar(n)
            && key.value.secretKey == su.encScalar(sk)
  {
    var b := su.hashToG1(nonce);
    var k := su.Mul(b, sk);
    var c := MemberHash(su, su.Mul(b, r), b, k, nonce);
    MemberKeyDecodes(su, k, c, su.Sum(r, su.Mul(c, sk)), n);
    Layout4(su.encG1(k), su.encScalar(c), su.encScalar(su.Sum(r, su.Mul(c, sk))), su.encScalar(n));
  }

  /** So is a signature: its response explains the draw r, it carries n, its challenge is the hash of the
      commitments to r, and its pseudonym is the basename point by the secret. */
  lemma SignedWith(su: Suite, m: Bytes, cred: Bytes, key: Bytes, basename: Option<Bytes>, randomize: bool,
                   l: int, r: int, n: int)
    requires su.Valid() && |cred| >= su.CredentialLength() && Residue(r, su.q) && Residue(n, su.q)
    requires SignatureBytes(su, m, cred, key, basename, randomize, l, r, n).Some?
    ensures var sig := SignatureBytes(su, m, cred, key, basename, randomize, l, r, n).value;
            var sk := DeserializeScalar(su, key);
            && |sig| == (if basename.Some? then su.SignatureWithNymLength() else su.SignatureLength())
            && sk.Some? && DecodeSignature(su, sig, basename.Some?).Some?
            && var g := DecodeSignature(su, sig, basename.Some?).value;
               var nym := if basename.None? then None else
                          var base := su.hashToG1(basename.value);
                          Some(Nym(su.Mul(base, r), su.Mul(base, sk.value), base));
               && Minus(g.s, su.Mul(g.c, sk.value), su.q) == r && g.n == n
               && g.k == (if nym.Some? then Some(nym.value.k) else None)
               && g.c == Challenge(su, su.Mul(g.cred.b, r), g.cred.b, g.cred.d, m, nym, n)
  {
    var k, sk := DecodeCredential(su, cred).value, DeserializeScalar(su, key).value;
    DecodedCredential(su, cred);
    var k' := if randomize then Scale(su, k, l) else k;
    var g := HonestSignature(su, m, k', sk, basename, r, n);
    assert SignatureBytes(su, m, cred, key, basename, randomize, l, r, n) == Some(EncodeSignature(su, g));
    SignatureRoundTrip(su, g);
    MinusUndoes(r, su.Mul(g.c, sk), su.q);
  }

  /** The bytes of an honest credential on the point b. */
  ghost predicate CredentialFor(su: Suite, cred: Bytes, b: int, x: int, y: int, sk: int)
    requires Prime(su.q) && Residue(y, su.q) && y != 0
  {
    |cred| == su.CredentialLength()
    && match DecodeCredential(su, cred)
       case Some(k) => k.b == b && HonestCredential(su, k, x, y, sk)
       case None => false
  }

  /** issue_credential, for every member key: under a nonce whose base is not the identity it answers
      exactly those that prove some secret, and gives out the credential for that secret. */
  lemma IssueIff(su: Suite, memberKey: Bytes, x: int, y: int, nonce: Bytes, ri: int)
    requires su.Valid() && Residue(x, su.q) && Residue(y, su.q) && su.hashToG1(nonce) != 0
    ensures var out := IssueCredential(su, memberKey, GenerateIssuerKeypair(su, x, y).secretKey, nonce, ri);
            && (out.Some? <==> |memberKey| >= su.MemberKeyLength() && y != 0
                               && exists sk {:trigger ProvedKey(su, memberKey, nonce, sk)} ::
                                    ProvedKey(su, memberKey, nonce, sk))
            && (out.Some? ==>
                 exists sk {:trigger ProvedKey(su, memberKey, nonce, sk)} ::
                   ProvedKey(su, memberKey, nonce, sk)
                   && CredentialFor(su, out.value.credential, su.hashToG1(nonce), x, y, sk))
  {
    IssuerKeyDecodes(su, x, y);
    if |memberKey| >= su.MemberKeyLength() {
      var g := su.G1Length();
      match (PointAt(su, memberKey, 0), ScalarAt(su, memberKey, g), ScalarAt(su, memberKey, g + SCALAR_LENGTH))
      case (Some(k), Some(c), Some(s)) =>
        ProofIff(su, k, c, s, nonce);
        if sk, r :| Proves(su, sk, r, k, c, s, nonce) {
          assert ProvedWith(su, memberKey, nonce, sk, r) && ProvedKey(su, memberKey, nonce, sk);
          if y != 0 {
            CredentialRoundTrip(su, IssuedCredential(su, su.hashToG1(nonce), k, x, Inverse(y, su.q)));
          }
        }
      case _ =>
    }
  }
}
