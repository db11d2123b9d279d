/** What the ECDAA operations promise each other, end to end and at the level of bytes. */
module EcdaaTheorems {
  import opened Options
  import opened Modular
  import opened Residues
  import opened Bytes
  import opened Ecdaa

  // ----- Byte layouts -----

  lemma Layout4(a: Bytes, b: Bytes, c: Bytes, d: Bytes)
    ensures var s := a + b + c + d;
            && s[..|a|] == a && s[|a|..|a| + |b|] == b
            && s[|a| + |b|..|a| + |b| + |c|] == c
            && s[|a| + |b| + |c|..|a| + |b| + |c| + |d|] == d
  {
  }

  lemma Layout7(a: Bytes, b: Bytes, c: Bytes, d: Bytes, e: Bytes, f: Bytes, g: Bytes, t: Bytes)
    ensures var s := a + b + c + d + e + f + g + t;
            var o := |a| + |b| + |c| + |d|;
            && s[..|a|] == a && s[|a|..|a| + |b|] == b
            && s[|a| + |b|..|a| + |b| + |c|] == c
            && s[|a| + |b| + |c|..o] == d && s[o..o + |e|] == e
            && s[o + |e|..o + |e| + |f|] == f
            && s[o + |e| + |f|..o + |e| + |f| + |g|] == g
            && s[o + |e| + |f| + |g|..] == t
  {
    Suffixes(a, b, c, d, e, f, g, t);
    Layout4(a, b, c, d + e + f + g + t);
    Layout4(a + b + c, d, e, f + g + t);
    Layout4(a + b + c + d + e, f, g, t);
  }

  lemma Suffixes(a: Bytes, b: Bytes, c: Bytes, d: Bytes, e: Bytes, f: Bytes, g: Bytes, t: Bytes)
    ensures a + b + c + d + e + f + g + t == a + b + c + (d + e + f + g + t)
    ensures a + b + c + d + e + f + g + t == a + b + c + d + e + (f + g + t)
  {
  }

  lemma CredentialRoundTrip(su: Suite, k: Credential)
    requires su.Valid() && CredentialOf(su, k)
    ensures |EncodeCredential(su, k)| == su.CredentialLength()
    ensures DecodeCredential(su, EncodeCredential(su, k)) == Some(k)
  {
    Layout4(su.encG1(k.a), su.encG1(k.b), su.encG1(k.c), su.encG1(k.d));
  }

  ghost predicate SignatureOf(su: Suite, g: Signature) {
    && Residue(g.c, su.q) && Residue(g.s, su.q) && CredentialOf(su, g.cred) && Residue(g.n, su.q)
    && (g.k.Some? ==> Residue(g.k.value, su.q))
  }

  lemma SignatureLayout(su: Suite, g: Signature)
    requires su.Valid() && SignatureOf(su, g)
    ensures var s, l := EncodeSignature(su, g), su.G1Length();
            && |s| == (if g.k.Some? then su.SignatureWithNymLength() else su.SignatureLength())
            && s[0..32] == su.encScalar(g.c) && s[32..64] == su.encScalar(g.s)
            && s[64..64 + l] == su.encG1(g.cred.a) && s[64 + l..64 + 2 * l] == su.encG1(g.cred.b)
            && s[64 + 2 * l..64 + 3 * l] == su.encG1(g.cred.c) && s[64 + 3 * l..64 + 4 * l] == su.encG1(g.cred.d)
            && s[64 + 4 * l..su.SignatureLength()] == su.encScalar(g.n)
            && s[su.SignatureLength()..] == if g.k.Some? then su.encG1(g.k.value) else []
  {
    var s := EncodeSignature(su, g);
    var t := if g.k.Some? then su.encG1(g.k.value) else [];
    var c0, c1, c2, c3 := su.encG1(g.cred.a), su.encG1(g.cred.b), su.encG1(g.cred.c), su.encG1(g.cred.d);
    Layout7(su.encScalar(g.c), su.encScalar(g.s), c0, c1, c2, c3, su.encScalar(g.n), t);
    assert s == su.encScalar(g.c) + su.encScalar(g.s) + c0 + c1 + c2 + c3 + su.encScalar(g.n) + t;
  }

  /** The bytes of a signature decode to it through the fixed offsets, for either length. */
  lemma SignatureRoundTrip(su: Suite, g: Signature)
    requires su.Valid() && SignatureOf(su, g)
    ensures var s := EncodeSignature(su, g);
            && |s| == (if g.k.Some? then su.SignatureWithNymLength() else su.SignatureLength())
            && DecodeSignature(su, s, g.k.Some?) == Some(g)
  {
    SignatureLayout(su, g);
    var s := EncodeSignature(su, g);
    if g.k.Some? {
      assert s[su.SignatureLength()..su.SignatureLength() + su.G1Length()] == s[su.SignatureLength()..];
    }
  }

  /** Whether the encoding of this G2 element decodes: v0 rejects the identity, v1 accepts it. */
  predicate G2Decodes(su: Suite, v: int) {
    v != 0 || su.decG2(su.encG2(0)).Some?
  }

  lemma GroupKeyRoundTrip(su: Suite, x: int, y: int)
    requires su.Valid() && Residue(x, su.q) && Residue(y, su.q)
    ensures var gpk := GenerateIssuerKeypair(su, x, y).publicKey;
            |gpk| == su.GroupKeyLength()
            && DecodeGroupKey(su, gpk) == if G2Decodes(su, x) && G2Decodes(su, y) then Some(GroupKey(x, y)) else None
  {
    TimesOne(x, su.q);
    TimesOne(y, su.q);
    var gx, gy := su.encG2(x), su.encG2(y);
    assert (gx + gy)[..su.G2Length()] == gx && (gx + gy)[su.G2Length()..2 * su.G2Length()] == gy;
  }

  // ----- Credentials -----

  /** The equations that tie a credential to the issuer key (x, y) and the member secret sk. */
  ghost predicate HonestCredential(su: Suite, k: Credential, x: int, y: int, sk: int)
    requires Prime(su.q) && Residue(y, su.q) && y != 0
  {
    && CredentialOf(su, k)
    && k.a == su.Mul(k.b, Inverse(y, su.q))
    && k.c == su.Mul(su.Sum(k.a, k.d), x)
    && k.d == su.Mul(k.b, sk)
  }

  lemma ScaleHonest(su: Suite, k: Credential, l: int, x: int, y: int, sk: int)
    requires su.Valid() && Residue(y, su.q) && y != 0 && HonestCredential(su, k, x, y, sk)
    ensures HonestCredential(su, Scale(su, k, l), x, y, sk)
    ensures Residue(l, su.q) ==> (Scale(su, k, l).b != 0 <==> k.b != 0 && l != 0)
  {
    var q, i := su.q, Inverse(y, su.q);
    TimesSwap(k.b, i, l, q);
    TimesSwap(k.b, sk, l, q);
    TimesSwap(su.Sum(k.a, k.d), x, l, q);
    PlusTimes(k.a, k.d, l, q);
    if Residue(l, q) { TimesNonZero(k.b, l, q); }
  }

  lemma TimesSwap(a: int, b: int, l: int, q: int)
    requires q > 0
    ensures Times(Times(a, b, q), l, q) == Times(Times(a, l, q), b, q)
  {
    TimesAssociates(a, b, l, q);
    TimesCommutes(b, l, q);
    TimesAssociates(a, l, b, q);
  }

  lemma PlusTimes(a: int, b: int, l: int, q: int)
    requires q > 0
    ensures Times(Plus(a, b, q), l, q) == Plus(Times(a, l, q), Times(b, l, q), q)
  {
    TimesPlus(l, a, b, q);
    TimesCommutes(l, Plus(a, b, q), q);
    TimesCommutes(l, a, q);
    TimesCommutes(l, b, q);
  }

  lemma HonestPairings(su: Suite, k: Credential, x: int, y: int, sk: int)
    requires su.Valid() && Residue(x, su.q) && Residue(y, su.q) && y != 0
    requires HonestCredential(su, k, x, y, sk)
    ensures PairingsHold(su, k, GroupKey(x, y))
    ensures k.a != 0 <==> k.b != 0
  {
    var q, i := su.q, Inverse(y, su.q);
    TimesAssociates(k.b, i, y, q);
    TimesCommutes(i, y, q);
    TimesOne(k.b, q);
    TimesOne(k.c, q);
    TimesNonZero(k.b, i, q);
  }

  /** When no coordinate of an honest credential is the identity. */
  lemma HonestNonIdentity(su: Suite, k: Credential, x: int, y: int, sk: int)
    requires su.Valid() && Residue(x, su.q) && Residue(y, su.q) && y != 0 && Residue(sk, su.q)
    requires HonestCredential(su, k, x, y, sk)
    ensures (k.a != 0 && k.b != 0 && k.c != 0 && k.d != 0)
       <==> (k.b != 0 && x != 0 && sk != 0 && su.Sum(Inverse(y, su.q), sk) != 0)
  {
    var q, i := su.q, Inverse(y, su.q);
    TimesNonZero(k.b, i, q);
    TimesNonZero(k.b, sk, q);
    TimesPlus(k.b, i, sk, q);
    TimesNonZero(k.b, su.Sum(i, sk), q);
    TimesNonZero(su.Sum(k.a, k.d), x, q);
  }

  // ----- Issuing -----

  /** An honest member key passes the issuer's proof check, and issuing then fails only for y = 0. */
  lemma IssueHonest(su: Suite, nonce: Bytes, sk: int, r: int, n: int, x: int, y: int, ri: int)
    requires su.Valid() && nonce != [] && Residue(sk, su.q) && Residue(r, su.q) && Residue(n, su.q)
    requires Residue(x, su.q) && Residue(y, su.q) && Residue(ri, su.q)
    ensures var key := GenerateWalletKeypair(su, nonce, sk, r, n);
            var issuer := GenerateIssuerKeypair(su, x, y);
            && key.Some? && key.value.secretKey == su.encScalar(sk)
            && |key.value.publicKey| == su.MemberKeyLength()
            && var out := IssueCredential(su, key.value.publicKey, issuer.secretKey, nonce, ri);
               && (out.Some? <==> y != 0)
               && (y != 0 ==>
                    var b := su.hashToG1(nonce);
                    var k := IssuedCredential(su, b, su.Mul(b, sk), x, Inverse(y, su.q));
                    out.value.credential == EncodeCredential(su, k) && k.b == b
                    && HonestCredential(su, k, x, y, sk))
  {
    var b := su.hashToG1(nonce);
    var k := su.Mul(b, sk);
    var c := MemberHash(su, su.Mul(b, r), b, k, nonce);
    var s := su.Sum(r, su.Mul(c, sk));
    MemberKeyDecodes(su, k, c, s, n);
    SchnorrRecomputes(b, sk, r, c, su.q);
    IssuerKeyDecodes(su, x, y);
  }

  lemma MemberKeyDecodes(su: Suite, k: int, c: int, s: int, n: int)
    requires su.Valid() && Residue(k, su.q) && Residue(c, su.q) && Residue(s, su.q) && Residue(n, su.q)
    ensures var pk := EncodeMemberKey(su, k, c, s, n);
            var g := su.G1Length();
            |pk| == su.MemberKeyLength() && PointAt(su, pk, 0) == Some(k)
            && ScalarAt(su, pk, g) == Some(c) && ScalarAt(su, pk, g + SCALAR_LENGTH) == Some(s)
  {
    Layout4(su.encG1(k), su.encScalar(c), su.encScalar(s), su.encScalar(n));
  }

  lemma IssuerKeyDecodes(su: Suite, x: int, y: int)
    requires su.Valid() && Residue(x, su.q) && Residue(y, su.q)
    ensures var isk := GenerateIssuerKeypair(su, x, y).secretKey;
            |isk| == 2 * SCALAR_LENGTH && ScalarAt(su, isk, 0) == Some(x)
            && ScalarAt(su, isk, SCALAR_LENGTH) == Some(y)
  {
    var ex, ey := su.encScalar(x), su.encScalar(y);
    assert (ex + ey)[..32] == ex && (ex + ey)[32..64] == ey;
  }

  /** randomize_credential applied once for each factor in ls. */
  function RandomizedBy(su: Suite, credential: Bytes, ls: seq<int>): Option<Bytes>
    requires su.Valid() && (credential == [] || |credential| >= su.CredentialLength())
    decreases |ls|
  {
    if ls == [] then Some(credential) else
    match RandomizeCredential(su, credential, ls[0])
    case Some(next) => RandomizedBy(su, next, ls[1..])
    case None => None
  }

  lemma {:induction false} RandomizedHonest(su: Suite, k: Credential, ls: seq<int>, x: int, y: int, sk: int)
    returns (k': Credential)
    requires su.Valid() && Residue(y, su.q) && y != 0 && HonestCredential(su, k, x, y, sk)
    requires forall i :: 0 <= i < |ls| ==> Residue(ls[i], su.q)
    ensures |EncodeCredential(su, k)| == su.CredentialLength()
    ensures RandomizedBy(su, EncodeCredential(su, k), ls) == Some(EncodeCredential(su, k'))
    ensures HonestCredential(su, k', x, y, sk)
    ensures k'.b != 0 <==> k.b != 0 && 0 !in ls
    decreases |ls|
  {
    CredentialRoundTrip(su, k);
    if ls == [] {
      k' := k;
    } else {
      ScaleHonest(su, k, ls[0], x, y, sk);
      k' := RandomizedHonest(su, Scale(su, k, ls[0]), ls[1..], x, y, sk);
      assert 0 in ls <==> ls[0] == 0 || 0 in ls[1..];
    }
  }

  // ----- Signing and verifying -----

  lemma HonestChallengeMatches(su: Suite, message: Bytes, k: Credential, sk: int, basename: Option<Bytes>, r: int,
                               n: int)
    requires su.Valid() && CredentialOf(su, k) && Residue(sk, su.q) && Residue(r, su.q) && Residue(n, su.q)
    requires k.d == su.Mul(k.b, sk)
    ensures var g := HonestSignature(su, message, k, sk, basename, r, n);
            SignatureOf(su, g) && g.k.Some? == basename.Some? && ChallengeMatches(su, g, basename, message)
  {
    var g := HonestSignature(su, message, k, sk, basename, r, n);
    SchnorrRecomputes(k.b, sk, r, g.c, su.q);
    if basename.Some? {
      SchnorrRecomputes(su.hashToG1(basename.value), sk, r, g.c, su.q);
    }
  }

  /** verify's verdict on a signature made with an honest credential: accepted exactly when no
      coordinate of the (possibly re-randomised) credential is the identity. */
  lemma VerifyHonest(su: Suite, message: Bytes, k: Credential, x: int, y: int, sk: int,
                     basename: Option<Bytes>, r: int, n: int, required: Option<Bytes>)
    requires su.Valid() && message != []
    requires Residue(x, su.q) && Residue(y, su.q) && y != 0 && HonestCredential(su, k, x, y, sk)
    requires Residue(sk, su.q) && Residue(r, su.q) && Residue(n, su.q)
    requires required.None? || required == Some(EncodeCredential(su, k))
    ensures var gpk := GenerateIssuerKeypair(su, x, y).publicKey;
            |gpk| == su.GroupKeyLength()
            && (Verify(su, gpk, basename, required, EncodeSignature(su, HonestSignature(su, message, k, sk,
                    basename, r, n)), message)
                <==> k.b != 0 && x != 0 && sk != 0 && su.Sum(Inverse(y, su.q), sk) != 0)
  {
    var g := HonestSignature(su, message, k, sk, basename, r, n);
    HonestChallengeMatches(su, message, k, sk, basename, r, n);
    SignatureRoundTrip(su, g);
    GroupKeyRoundTrip(su, x, y);
    CredentialRoundTrip(su, k);
    HonestPairings(su, k, x, y, sk);
    HonestNonIdentity(su, k, x, y, sk);
  }

  /** None of the elements that would make a coordinate of the credential the identity is zero. */
  ghost predicate NonDegenerate(su: Suite, nonce: Bytes, x: int, y: int, sk: int)
    requires Prime(su.q) && Residue(y, su.q) && y != 0
  {
    su.hashToG1(nonce) != 0 && x != 0 && sk != 0 && su.Sum(Inverse(y, su.q), sk) != 0
  }

  /** End to end: from key generation through issuing, any number of re-randomisations and
      signing, to verification of the very bytes, with and without a required credential. */
  lemma EndToEnd(su: Suite, nonce: Bytes, sk: int, rk: int, nk: int, x: int, y: int, ri: int,
                 ls: seq<int>, message: Bytes, basename: Option<Bytes>, randomize: bool, l: int, r: int, n: int)
    requires su.Valid() && nonce != [] && message != [] && basename != Some([])
    requires forall v | v in [sk, rk, nk, x, y, ri, l, r, n] + ls :: Residue(v, su.q)
    requires y != 0
    ensures var key := GenerateWalletKeypair(su, nonce, sk, rk, nk).value;
            var issuer := GenerateIssuerKeypair(su, x, y);
            var issued := IssueCredential(su, key.publicKey, issuer.secretKey, nonce, ri);
            && issued.Some? && |issued.value.credential| == su.CredentialLength()
            && |issuer.publicKey| == su.GroupKeyLength()
            && var cred := RandomizedBy(su, issued.value.credential, ls);
            && cred.Some? && |cred.value| == su.CredentialLength()
            && (CredentialInGroup(su, cred.value, issuer.publicKey)
                <==> su.hashToG1(nonce) != 0 && 0 !in ls && G2Decodes(su, x))
            && var sig := SignatureBytes(su, message, cred.value, key.secretKey, basename, randomize, l, r, n);
            && sig.Some?
            && (Verify(su, issuer.publicKey, basename, None, sig.value, message)
                <==> NonDegenerate(su, nonce, x, y, sk) && 0 !in ls && (randomize ==> l != 0))
            && (!randomize ==>
                 (Verify(su, issuer.publicKey, basename, Some(cred.value), sig.value, message)
                  <==> NonDegenerate(su, nonce, x, y, sk) && 0 !in ls))
  {
    assert forall v :: v in ls ==> v in [sk, rk, nk, x, y, ri, l, r, n] + ls;
    assert forall v :: v in [sk, rk, nk, x, y, ri, l, r, n] ==> v in [sk, rk, nk, x, y, ri, l, r, n] + ls;
    IssueHonest(su, nonce, sk, rk, nk, x, y, ri);
    var b := su.hashToG1(nonce);
    var k0 := IssuedCredential(su, b, su.Mul(b, sk), x, Inverse(y, su.q));
    var k := RandomizedHonest(su, k0, ls, x, y, sk);
    CredentialVerdicts(su, k, x, y, sk, message, basename, randomize, l, r, n);
  }

  /** The verdicts on any honest credential, before it is related to its origin. */
  lemma CredentialVerdicts(su: Suite, k: Credential, x: int, y: int, sk: int, message: Bytes,
                           basename: Option<Bytes>, randomize: bool, l: int, r: int, n: int)
    requires su.Valid() && message != [] && basename != Some([])
    requires Residue(x, su.q) && Residue(y, su.q) && y != 0 && Residue(sk, su.q)
    requires Residue(l, su.q) && Residue(r, su.q) && Residue(n, su.q)
    requires HonestCredential(su, k, x, y, sk)
    ensures var gpk, cred := GenerateIssuerKeypair(su, x, y).publicKey, EncodeCredential(su, k);
            var live := k.b != 0 && x != 0 && sk != 0 && su.Sum(Inverse(y, su.q), sk) != 0;
            && |gpk| == su.GroupKeyLength() && |cred| == su.CredentialLength()
            && (CredentialInGroup(su, cred, gpk) <==> k.b != 0 && G2Decodes(su, x))
            && var sig := SignatureBytes(su, message, cred, su.encScalar(sk), basename, randomize, l, r, n);
            && sig.Some?
            && (Verify(su, gpk, basename, None, sig.value, message) <==> live && (randomize ==> l != 0))
            && (!randomize ==> (Verify(su, gpk, basename, Some(cred), sig.value, message) <==> live))
  {
    var k' := if randomize then Scale(su, k, l) else k;
    GroupVerdict(su, k, x, y, sk);
    ScaleHonest(su, k, l, x, y, sk);
    Signs(su, k, sk, message, basename, randomize, l, r, n);
    VerifyHonest(su, message, k', x, y, sk, basename, r, n, None);
    if !randomize {
      VerifyHonest(su, message, k, x, y, sk, basename, r, n, Some(EncodeCredential(su, k)));
    }
  }

  lemma GroupVerdict(su: Suite, k: Credential, x: int, y: int, sk: int)
    requires su.Valid() && Residue(x, su.q) && Residue(y, su.q) && y != 0
    requires HonestCredential(su, k, x, y, sk)
    ensures var gpk, cred := GenerateIssuerKeypair(su, x, y).publicKey, EncodeCredential(su, k);
            && |gpk| == su.GroupKeyLength() && |cred| == su.CredentialLength()
            && (CredentialInGroup(su, cred, gpk) <==> k.b != 0 && G2Decodes(su, x))
  {
    CredentialRoundTrip(su, k);
    GroupKeyRoundTrip(su, x, y);
    HonestPairings(su, k, x, y, sk);
  }

  /** On well-formed inputs sign succeeds, with the honest signature under the scaled credential. */
  lemma Signs(su: Suite, k: Credential, sk: int, message: Bytes, basename: Option<Bytes>,
              randomize: bool, l: int, r: int, n: int)
    requires su.Valid() && CredentialOf(su, k) && Residue(sk, su.q) && message != [] && basename != Some([])
    ensures |EncodeCredential(su, k)| == su.CredentialLength()
    ensures SignatureBytes(su, message, EncodeCredential(su, k), su.encScalar(sk), basename, randomize, l, r, n)
         == Some(EncodeSignature(su, HonestSignature(su, message,
              if randomize then Scale(su, k, l) else k, sk, basename, r, n)))
  {
    CredentialRoundTrip(su, k);
    SecretDecodes(su, sk);
  }

  lemma PointDecodes(su: Suite, v: int)
    requires su.Valid() && Residue(v, su.q)
    ensures DeserializeG1(su, su.encG1(v)) == Some(v)
  {
    assert su.encG1(v)[0..su.G1Length()] == su.encG1(v);
  }

  lemma SecretDecodes(su: Suite, sk: int)
    requires su.Valid() && Residue(sk, su.q)
    ensures DeserializeScalar(su, su.encScalar(sk)) == Some(sk)
  {
    assert su.encScalar(sk)[0..32] == su.encScalar(sk);
  }

  // ----- What acceptance gives -----

  lemma CarriedCredential(su: Suite, sig: Bytes, withNym: bool)
    requires |sig| >= if withNym then su.SignatureWithNymLength() else su.SignatureLength()
    requires DecodeSignature(su, sig, withNym).Some?
    ensures var cred := CredentialFromSignature(su, sig);
            cred.Some? && |cred.value| == su.CredentialLength()
            && DecodeCredential(su, cred.value) == Some(DecodeSignature(su, sig, withNym).value.cred)
  {
    var cred := CredentialFromSignature(su, sig).value;
    var g := su.G1Length();
    SubSlice(sig, 64, 64 + 4 * g, 0, g);
    SubSlice(sig, 64, 64 + 4 * g, g, 2 * g);
    SubSlice(sig, 64, 64 + 4 * g, 2 * g, 3 * g);
    SubSlice(sig, 64, 64 + 4 * g, 3 * g, 4 * g);
  }

  /** An accepted signature carries a credential of the group. */
  lemma AcceptedCarriesCredential(su: Suite, gpk: Bytes, basename: Option<Bytes>, required: Option<Bytes>,
                                  sig: Bytes, message: Bytes)
    requires su.Valid() && |gpk| >= su.GroupKeyLength()
    requires Verify(su, gpk, basename, required, sig, message)
    ensures var cred := CredentialFromSignature(su, sig);
            && cred.Some? && |cred.value| == su.CredentialLength()
            && CredentialInGroup(su, cred.value, gpk)
            && (required.Some? ==> DecodeCredential(su, cred.value) == DecodeCredential(su, required.value))
  {
    CarriedCredential(su, sig, basename.Some?);
    CredentialRoundTrip(su, DecodeSignature(su, sig, basename.Some?).value.cred);
  }

  /** Deflating and re-inflating with the carried credential restores every byte. */
  lemma InflateUndoesDeflate(su: Suite, sig: Bytes)
    requires |sig| >= su.SignatureLength()
    ensures var cred := CredentialFromSignature(su, sig).value;
            var small := DeflateSignature(su, sig);
            |small| == |sig| - su.CredentialLength() && |small| >= 64
            && InflateSignature(cred, small) == sig
  {
    var e := 64 + su.CredentialLength();
    var small := DeflateSignature(su, sig);
    assert small[..64] == sig[..64] && small[64..] == sig[e..];
    assert sig == sig[..64] + sig[64..e] + sig[e..];
  }

  // ----- Special soundness and linkability -----

  /** The exponent that two transcripts with one commitment reveal. */
  function Extracted(s1: int, c1: int, s2: int, c2: int, q: int): int
    requires Prime(q) && Residue(c1, q) && Residue(c2, q) && c1 != c2
  {
    Distinct(c1, c2, q);
    Times(Minus(s1, s2, q), Inverse(Minus(c1, c2, q), q), q)
  }

  lemma Distinct(a: int, b: int, q: int)
    requires q > 0 && Residue(a, q) && Residue(b, q) && a != b
    ensures Minus(a, b, q) != 0
  {
    if Minus(a, b, q) == 0 {
      CongIntro(a, b, (a - b) / q, q);
      CongSmall(a, b, q);
    }
  }

  /** base*s1 - w*c1 = base*s2 - w*c2 forces w = base*e. */
  lemma Extraction(base: int, w: int, s1: int, c1: int, s2: int, c2: int, q: int)
    requires Prime(q) && Residue(w, q) && Residue(c1, q) && Residue(c2, q) && c1 != c2
    requires Minus(Times(base, s1, q), Times(w, c1, q), q) == Minus(Times(base, s2, q), Times(w, c2, q), q)
    ensures w == Times(base, Extracted(s1, c1, s2, c2, q), q)
  {
    Distinct(c1, c2, q);
    var ds, dc := Minus(s1, s2, q), Minus(c1, c2, q);
    var i := Inverse(dc, q);
    MoveAcross(Times(base, s1, q), Times(w, c1, q), Times(base, s2, q), Times(w, c2, q), q);
    TimesMinus(base, s1, s2, q);
    TimesMinus(w, c1, c2, q);
    assert Times(base, ds, q) == Times(w, dc, q);
    TimesAssociates(base, ds, i, q);
    TimesAssociates(w, dc, i, q);
    TimesOne(w, q);
  }

  lemma MoveAcross(a: int, b: int, c: int, d: int, q: int)
    requires q > 0 && Minus(a, b, q) == Minus(c, d, q)
    ensures Minus(a, c, q) == Minus(b, d, q)
  {
    CongAdd(a - b, c - d, b - c, b - c, q);
  }

  /** Two accepted signatures that share credential points S, W and commitment but not the
      challenge give away e with W = S*e; with a shared pseudonym and its commitment, K = base*e
      for the same e. */
  lemma SpecialSoundness(su: Suite, gpk: Bytes, basename: Option<Bytes>, sig1: Bytes, m1: Bytes, sig2: Bytes, m2: Bytes)
    requires su.Valid() && |gpk| >= su.GroupKeyLength()
    requires Verify(su, gpk, basename, None, sig1, m1) && Verify(su, gpk, basename, None, sig2, m2)
    requires var g1, g2 := DecodeSignature(su, sig1, basename.Some?).value, DecodeSignature(su, sig2,
            basename.Some?).value;
             && g1.cred.b == g2.cred.b && g1.cred.d == g2.cred.d && g1.c != g2.c && g1.k == g2.k
             && RecomputedU(su, g1) == RecomputedU(su, g2)
             && (basename.Some? ==> RecomputedKU(su, g1, su.hashToG1(basename.value)) == RecomputedKU(su, g2,
                     su.hashToG1(basename.value)))
    ensures var g1, g2 := DecodeSignature(su, sig1, basename.Some?).value, DecodeSignature(su, sig2,
            basename.Some?).value;
            var e := Extracted(g1.s, g1.c, g2.s, g2.c, su.q);
            && g1.cred.d == su.Mul(g1.cred.b, e)
            && (basename.Some? ==> g1.k.value == su.Mul(su.hashToG1(basename.value), e))
            && (forall e' | Residue(e', su.q) && g1.cred.d == su.Mul(g1.cred.b, e') :: e' == e)
  {
    var g1, g2 := DecodeSignature(su, sig1, basename.Some?).value, DecodeSignature(su, sig2, basename.Some?).value;
    var e := Extracted(g1.s, g1.c, g2.s, g2.c, su.q);
    Extraction(g1.cred.b, g1.cred.d, g1.s, g1.c, g2.s, g2.c, su.q);
    if basename.Some? {
      Extraction(su.hashToG1(basename.value), g1.k.value, g1.s, g1.c, g2.s, g2.c, su.q);
    }
    forall e' | Residue(e', su.q) && g1.cred.d == su.Mul(g1.cred.b, e') ensures e' == e {
      TimesInjective(g1.cred.b, e', e, su.q);
    }
  }

  /** From two honest answers with one commitment nonce the extractor returns the secret. */
  lemma HonestExtraction(r: int, sk: int, c1: int, c2: int, q: int)
    requires Prime(q) && Residue(sk, q) && Residue(c1, q) && Residue(c2, q) && c1 != c2 && Residue(r, q)
    ensures Extracted(Plus(r, Times(c1, sk, q), q), c1, Plus(r, Times(c2, sk, q), q), c2, q) == sk
  {
    var s1, s2 := Plus(r, Times(c1, sk, q), q), Plus(r, Times(c2, sk, q), q);
    SchnorrRecomputes(1, sk, r, c1, q);
    SchnorrRecomputes(1, sk, r, c2, q);
    TimesOne(sk, q);
    Extraction(1, sk, s1, c1, s2, c2, q);
    TimesOne(Extracted(s1, c1, s2, c2, q), q);
  }

  /** Under one basename whose point is not the identity, the pseudonym bytes of two signatures
      agree exactly when the signers' secrets do, whatever else differs. */
  lemma PseudonymLinks(su: Suite, bsn: Bytes,
                       m1: Bytes, cred1: Bytes, sk1: int, rand1: bool, l1: int, r1: int, n1: int,
                       m2: Bytes, cred2: Bytes, sk2: int, rand2: bool, l2: int, r2: int, n2: int)
    requires su.Valid() && bsn != [] && su.hashToG1(bsn) != 0 && m1 != [] && m2 != []
    requires Residue(sk1, su.q) && Residue(sk2, su.q)
    requires Residue(r1, su.q) && Residue(r2, su.q) && Residue(n1, su.q) && Residue(n2, su.q)
    requires |cred1| >= su.CredentialLength() && DecodeCredential(su, cred1).Some?
    requires |cred2| >= su.CredentialLength() && DecodeCredential(su, cred2).Some?
    ensures var sig1 := SignatureBytes(su, m1, cred1, su.encScalar(sk1), Some(bsn), rand1, l1, r1, n1);
            var sig2 := SignatureBytes(su, m2, cred2, su.encScalar(sk2), Some(bsn), rand2, l2, r2, n2);
            && sig1.Some? && sig2.Some?
            && |sig1.value| == |sig2.value| == su.SignatureWithNymLength()
            && (sig1.value[su.SignatureLength()..] == sig2.value[su.SignatureLength()..] <==> sk1 == sk2)
  {
    var base := su.hashToG1(bsn);
    NymBytes(su, bsn, m1, cred1, sk1, rand1, l1, r1, n1);
    NymBytes(su, bsn, m2, cred2, sk2, rand2, l2, r2, n2);
    TimesInjective(base, sk1, sk2, su.q);
    var k1, k2 := su.Mul(base, sk1), su.Mul(base, sk2);
    assert su.encG1(k1) == su.encG1(k2) ==> Some(k1) == su.decG1(su.encG1(k1)) == Some(k2);
  }

  lemma NymBytes(su: Suite, bsn: Bytes, m: Bytes, cred: Bytes, sk: int, rand: bool, l: int, r: int, n: int)
    requires su.Valid() && bsn != [] && m != [] && Residue(sk, su.q) && Residue(r, su.q) && Residue(n, su.q)
    requires |cred| >= su.CredentialLength() && DecodeCredential(su, cred).Some?
    ensures var sig := SignatureBytes(su, m, cred, su.encScalar(sk), Some(bsn), rand, l, r, n);
            sig.Some? && |sig.value| == su.SignatureWithNymLength()
            && sig.value[su.SignatureLength()..] == su.encG1(su.Mul(su.hashToG1(bsn), sk))
  {
    SecretDecodes(su, sk);
    var k := DecodeCredential(su, cred).value;
    var c := if rand then Scale(su, k, l) else k;
    DecodedCredential(su, cred);
    HonestNym(su, bsn, m, c, sk, r, n);
    var g := HonestSignature(su, m, c, sk, Some(bsn), r, n);
    SignatureLayout(su, g);
    assert SignatureBytes(su, m, cred, su.encScalar(sk), Some(bsn), rand, l, r, n) == Some(EncodeSignature(su, g));
  }

  lemma DecodedCredential(su: Suite, cred: Bytes)
    requires su.Valid() && |cred| >= su.CredentialLength() && DecodeCredential(su, cred).Some?
    ensures CredentialOf(su, DecodeCredential(su, cred).value)
  {
    var g := su.G1Length();
    var a, b, c, d := cred[0..g], cred[g..2 * g], cred[2 * g..3 * g], cred[3 * g..4 * g];
    assert su.decG1(a).Some? && su.decG1(b).Some? && su.decG1(c).Some? && su.decG1(d).Some?;
  }

  lemma HonestNym(su: Suite, bsn: Bytes, m: Bytes, c: Credential, sk: int, r: int, n: int)
    requires su.Valid() && CredentialOf(su, c) && Residue(n, su.q)
    ensures var g := HonestSignature(su, m, c, sk, Some(bsn), r, n);
            SignatureOf(su, g) && g.k == Some(su.Mul(su.hashToG1(bsn), sk))
  {
  }
}
