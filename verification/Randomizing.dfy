/** Re-randomising a credential, by itself and in signing: what it does to the bytes, that it can be
    undone, and that it hides which credential it started from. And where every field lies. */
module Randomizing {
  import opened Options
  import opened Modular
  import opened Residues
  import opened Bytes
  import opened Ecdaa
  import opened EcdaaTheorems

  // ----- The components -----

  /** Each component l-fold. */
  ghost predicate IsFold(k: Credential, k': Credential, l: int, q: int)
    requires q > 0
  {
    k' == Credential((k.a * l) % q, (k.b * l) % q, (k.c * l) % q, (k.d * l) % q)
  }

  /** randomize_credential, for every string: it fails on what does not decode, and otherwise the
      result decodes to the l-fold of each of the four components. */
  lemma RandomizedParts(su: Suite, cred: Bytes, l: int)
    requires su.Valid() && |cred| >= su.CredentialLength()
    ensures var out := RandomizeCredential(su, cred, l);
            match DecodeCredential(su, cred)
            case None => out.None?
            case Some(k) =>
              out.Some? && DecodeCredential(su, out.value).Some?
              && IsFold(k, DecodeCredential(su, out.value).value, l, su.q)
  {
    if DecodeCredential(su, cred).Some? {
      CredentialRoundTrip(su, Scale(su, DecodeCredential(su, cred).value, l));
    }
  }

  /** Different factors give different bytes. */
  lemma FactorsShow(su: Suite, cred: Bytes, l: int, l': int)
    requires su.Valid() && |cred| >= su.CredentialLength() && Residue(l, su.q) && Residue(l', su.q)
    requires DecodeCredential(su, cred).Some? && DecodeCredential(su, cred).value.b != 0
    ensures RandomizeCredential(su, cred, l) == RandomizeCredential(su, cred, l') <==> l == l'
  {
    RandomizedParts(su, cred, l);
    RandomizedParts(su, cred, l');
    DecodedCredential(su, cred);
    TimesInjective(DecodeCredential(su, cred).value.b, l, l', su.q);
  }

  lemma FoldOfFold(k: Credential, k1: Credential, k2: Credential, l: int, m: int, q: int)
    requires q > 0 && IsFold(k, k1, l, q) && IsFold(k1, k2, m, q)
    ensures IsFold(k, k2, Times(l, m, q), q)
  {
    TimesAssociates(k.a, l, m, q);
    TimesAssociates(k.b, l, m, q);
    TimesAssociates(k.c, l, m, q);
    TimesAssociates(k.d, l, m, q);
  }

  lemma FoldBytes(su: Suite, k: Credential, k': Credential, l: int)
    requires su.Valid() && CredentialOf(su, k) && IsFold(k, k', l, su.q)
    ensures |EncodeCredential(su, k)| == su.CredentialLength() && CredentialOf(su, k')
    ensures RandomizeCredential(su, EncodeCredential(su, k), l) == Some(EncodeCredential(su, k'))
  {
    CredentialRoundTrip(su, k);
  }

  /** The fold by l: what the specification calls scaling. */
  function Fold(k: Credential, l: int, q: int): (k': Credential)
    requires q > 0
    ensures IsFold(k, k', l, q)
  {
    Credential(Times(k.a, l, q), Times(k.b, l, q), Times(k.c, l, q), Times(k.d, l, q))
  }

  lemma FoldByOne(k: Credential, q: int)
    requires q > 1 && Residue(k.a, q) && Residue(k.b, q) && Residue(k.c, q) && Residue(k.d, q)
    ensures IsFold(k, k, 1, q)
  {
    TimesOne(k.a, q);
    TimesOne(k.b, q);
    TimesOne(k.c, q);
    TimesOne(k.d, q);
  }

  /** A non-zero factor is undone by its inverse, byte for byte. */
  lemma RandomizedBack(su: Suite, k: Credential, l: int)
    requires su.Valid() && CredentialOf(su, k) && Residue(l, su.q) && l != 0
    ensures |EncodeCredential(su, k)| == su.CredentialLength()
    ensures RandomizedBy(su, EncodeCredential(su, k), [l, Inverse(l, su.q)]) == Some(EncodeCredential(su, k))
  {
    ManyFold(su, k, [l, Inverse(l, su.q)]);
    var i := Inverse(l, su.q);
    assert [l, i][1..] == [i] && [i][1..] == [];
    TimesOne(i, su.q);
    assert ProductOf([i], su.q) == Times(i, ProductOf([], su.q), su.q) == i;
    FoldByOne(k, su.q);
    FoldBytes(su, k, k, 1);
  }

  function ProductOf(ls: seq<int>, q: int): int
    requires q > 1
  {
    if ls == [] then 1 else Times(ls[0], ProductOf(ls[1..], q), q)
  }

  /** Any number of re-randomisations is one, by the product of the factors. */
  lemma {:induction false} ManyFold(su: Suite, k: Credential, ls: seq<int>)
    requires su.Valid() && CredentialOf(su, k)
    ensures |EncodeCredential(su, k)| == su.CredentialLength()
    ensures RandomizedBy(su, EncodeCredential(su, k), ls)
         == RandomizeCredential(su, EncodeCredential(su, k), ProductOf(ls, su.q))
    decreases |ls|
  {
    CredentialRoundTrip(su, k);
    if ls == [] {
      FoldByOne(k, su.q);
      FoldBytes(su, k, k, 1);
    } else {
      var q, rest := su.q, ProductOf(ls[1..], su.q);
      var k1 := Fold(k, ls[0], q);
      var k2 := Fold(k1, rest, q);
      FoldBytes(su, k, k1, ls[0]);
      ManyFold(su, k1, ls[1..]);
      FoldBytes(su, k1, k2, rest);
      FoldOfFold(k, k1, k2, ls[0], rest, q);
      FoldBytes(su, k, k2, ProductOf(ls, q));
    }
  }

  // ----- What signing carries -----

  /** The credential in a signature: the holder's, or the l-fold of each component. */
  lemma SignedCarries(su: Suite, m: Bytes, cred: Bytes, key: Bytes, basename: Option<Bytes>,
                      randomize: bool, l: int, r: int, n: int)
    requires su.Valid() && |cred| >= su.CredentialLength() && Residue(r, su.q) && Residue(n, su.q)
    requires SignatureBytes(su, m, cred, key, basename, randomize, l, r, n).Some?
    ensures var sig := SignatureBytes(su, m, cred, key, basename, randomize, l, r, n).value;
            var k, carried := DecodeCredential(su, cred), CredentialFromSignature(su, sig);
            && k.Some? && carried.Some? && |carried.value| == su.CredentialLength()
            && match DecodeCredential(su, carried.value)
               case None => false
               case Some(k') => if randomize then IsFold(k.value, k', l, su.q) else k' == k.value
  {
    var k, sk := DecodeCredential(su, cred).value, DeserializeScalar(su, key).value;
    DecodedCredential(su, cred);
    var k' := if randomize then Fold(k, l, su.q) else k;
    var g := HonestSignature(su, m, k', sk, basename, r, n);
    assert SignatureBytes(su, m, cred, key, basename, randomize, l, r, n) == Some(EncodeSignature(su, g));
    SignatureRoundTrip(su, g);
    CarriedCredential(su, EncodeSignature(su, g), basename.Some?);
  }

  /** Signatures by one holder under different factors carry different credentials. */
  lemma SignedFactorsShow(su: Suite, m: Bytes, m': Bytes, cred: Bytes, key: Bytes, basename: Option<Bytes>,
                          basename': Option<Bytes>, l: int, l': int, r: int, r': int, n: int, n': int)
    requires su.Valid() && |cred| >= su.CredentialLength()
    requires Residue(r, su.q) && Residue(n, su.q) && Residue(r', su.q) && Residue(n', su.q)
    requires Residue(l, su.q) && Residue(l', su.q)
    requires SignatureBytes(su, m, cred, key, basename, true, l, r, n).Some?
    requires SignatureBytes(su, m', cred, key, basename', true, l', r', n').Some?
    requires DecodeCredential(su, cred).Some? && DecodeCredential(su, cred).value.b != 0
    ensures CredentialFromSignature(su, SignatureBytes(su, m, cred, key, basename, true, l, r, n).value)
         == CredentialFromSignature(su, SignatureBytes(su, m', cred, key, basename', true, l', r', n').value)
       ==> l == l'
  {
    SignedCarries(su, m, cred, key, basename, true, l, r, n);
    SignedCarries(su, m', cred, key, basename', true, l', r', n');
    DecodedCredential(su, cred);
    TimesInjective(DecodeCredential(su, cred).value.b, l, l', su.q);
  }

  // ----- What re-randomising hides -----

  /** Of all credentials of one issuer key and one secret, not scaled by zero, each is a fold of any
      other by exactly one factor: a re-randomised one does not say which it came from. */
  lemma FoldHides(su: Suite, k: Credential, k': Credential, x: int, y: int, sk: int)
    requires su.Valid() && Residue(y, su.q) && y != 0 && Residue(sk, su.q) && k.b != 0 && k'.b != 0
    requires HonestCredential(su, k, x, y, sk) && HonestCredential(su, k', x, y, sk)
    ensures var l := su.Mul(Inverse(k.b, su.q), k'.b);
            && l != 0 && IsFold(k, k', l, su.q)
            && forall l' :: Residue(l', su.q) && IsFold(k, k', l', su.q) ==> l' == l
  {
    var q := su.q;
    var l := su.Mul(Inverse(k.b, q), k'.b);
    TimesAssociates(k.b, Inverse(k.b, q), k'.b, q);
    TimesOne(k'.b, q);
    TimesZero(k.b, q);
    ScaleHonest(su, k, l, x, y, sk);
    SameBase(su, Scale(su, k, l), k', x, y, sk);
    forall l' | Residue(l', q) && IsFold(k, k', l', q) ensures l' == l {
      TimesInjective(k.b, l', l, q);
    }
  }

  /** Issuer key, secret and b determine an honest credential. */
  lemma SameBase(su: Suite, k: Credential, k': Credential, x: int, y: int, sk: int)
    requires su.Valid() && Residue(y, su.q) && y != 0 && k.b == k'.b
    requires HonestCredential(su, k, x, y, sk) && HonestCredential(su, k', x, y, sk)
    ensures k == k'
  {
  }

  // ----- The issuer's signature on a credential -----

  /** The second output of issuing: the challenge is recomputed from the response, the nonce's point
      times y, and the member's point, which is hashed twice. */
  lemma IssuerSignature(su: Suite, memberKey: Bytes, x: int, y: int, nonce: Bytes, ri: int)
    requires su.Valid() && Residue(x, su.q) && Residue(y, su.q) && Residue(ri, su.q)
    requires IssueCredential(su, memberKey, GenerateIssuerKeypair(su, x, y).secretKey, nonce, ri).Some?
    ensures var isk := GenerateIssuerKeypair(su, x, y).secretKey;
            var sig := IssueCredential(su, memberKey, isk, nonce, ri).value.signature;
            var b, k := su.hashToG1(nonce), PointAt(su, memberKey, 0);
            && |sig| == 2 * SCALAR_LENGTH && k.Some?
            && match (ScalarAt(su, sig, 0), ScalarAt(su, sig, SCALAR_LENGTH))
               case (Some(c), Some(s)) =>
                 Minus(s, su.Mul(c, y), su.q) == ri
                 && c == su.hashToScalar(su.encG1(Minus(su.Mul(b, s), su.Mul(su.Mul(b, y), c), su.q))
                                      + su.encG1(k.value) + su.encG1(k.value))
               case _ => false
  {
    var b, k := su.hashToG1(nonce), PointAt(su, memberKey, 0).value;
    IssuerKeyDecodes(su, x, y);
    var c := su.hashToScalar(su.encG1(su.Mul(b, ri)) + su.encG1(k) + su.encG1(k));
    var s := su.Sum(ri, su.Mul(c, y));
    SchnorrRecomputes(b, y, ri, c, su.q);
    MinusUndoes(ri, su.Mul(c, y), su.q);
    assert (su.encScalar(c) + su.encScalar(s))[0..32] == su.encScalar(c);
    assert (su.encScalar(c) + su.encScalar(s))[32..64] == su.encScalar(s);
  }

  // ----- Where the fields lie -----

  lemma CredentialLayout(su: Suite, k: Credential)
    requires su.Valid() && CredentialOf(su, k)
    ensures var s, g := EncodeCredential(su, k), if su.version.BN254? then 65 else 48;
            && |s| == 4 * g && s[..g] == su.encG1(k.a) && s[g..2 * g] == su.encG1(k.b)
            && s[2 * g..3 * g] == su.encG1(k.c) && s[3 * g..] == su.encG1(k.d)
  {
    Layout4(su.encG1(k.a), su.encG1(k.b), su.encG1(k.c), su.encG1(k.d));
  }

  lemma KeyLayouts(su: Suite, x: int, y: int, k: int, c: int, s: int, n: int)
    requires su.Valid() && Residue(x, su.q) && Residue(y, su.q)
    requires Residue(k, su.q) && Residue(c, su.q) && Residue(s, su.q) && Residue(n, su.q)
    ensures var issuer, g := GenerateIssuerKeypair(su, x, y), if su.version.BN254? then 129 else 96;
            && |issuer.secretKey| == 64 && |issuer.publicKey| == 2 * g
            && issuer.secretKey[..32] == su.encScalar(x) && issuer.secretKey[32..] == su.encScalar(y)
            && issuer.publicKey[..g] == su.encG2(x) && issuer.publicKey[g..] == su.encG2(y)
    ensures var member, g := EncodeMemberKey(su, k, c, s, n), if su.version.BN254? then 65 else 48;
            && |member| == g + 96 && member[..g] == su.encG1(k) && member[g..g + 32] == su.encScalar(c)
            && member[g + 32..g + 64] == su.encScalar(s) && member[g + 64..] == su.encScalar(n)
  {
    TimesOne(x, su.q);
    TimesOne(y, su.q);
    Layout4(su.encG1(k), su.encScalar(c), su.encScalar(s), su.encScalar(n));
  }

  /** A signature: challenge, response, the four credential points, the replay nonce, the pseudonym. */
  lemma SignatureFields(su: Suite, g: Signature)
    requires su.Valid() && SignatureOf(su, g)
    ensures var s, l := EncodeSignature(su, g), if su.version.BN254? then 65 else 48;
            && |s| == 96 + (if g.k.Some? then 5 else 4) * l
            && s[..32] == su.encScalar(g.c) && s[32..64] == su.encScalar(g.s)
            && s[64..64 + l] == su.encG1(g.cred.a) && s[64 + l..64 + 2 * l] == su.encG1(g.cred.b)
            && s[64 + 2 * l..64 + 3 * l] == su.encG1(g.cred.c) && s[64 + 3 * l..64 + 4 * l] == su.encG1(g.cred.d)
            && s[64 + 4 * l..96 + 4 * l] == su.encScalar(g.n)
            && s[96 + 4 * l..] == if g.k.Some? then su.encG1(g.k.value) else []
  {
    SignatureLayout(su, g);
    assert EncodeSignature(su, g)[..32] == EncodeSignature(su, g)[0..32];
  }

  /** The hashed transcript: commitment, S, W, message, then the pseudonym's commitment, the
      pseudonym and the basename point. */
  lemma TranscriptLayout(su: Suite, u: int, s: int, w: int, m: Bytes, nym: Option<Nym>)
    requires su.Valid() && Residue(u, su.q) && Residue(s, su.q) && Residue(w, su.q)
    requires nym.Some? ==> Residue(nym.value.kU, su.q) && Residue(nym.value.k, su.q) && Residue(nym.value.base, su.q)
    ensures var d, g := ChallengeInput(su, u, s, w, m, nym), su.G1Length();
            var o := 3 * g + |m|;
            && |d| == o + (if nym.Some? then 3 * g else 0)
            && d[..g] == su.encG1(u) && d[g..2 * g] == su.encG1(s) && d[2 * g..3 * g] == su.encG1(w)
            && d[3 * g..o] == m
            && (nym.Some? ==> d[o..o + g] == su.encG1(nym.value.kU) && d[o + g..o + 2 * g] == su.encG1(nym.value.k)
                              && d[o + 2 * g..] == su.encG1(nym.value.base))
  {
    var head := su.encG1(u) + su.encG1(s) + su.encG1(w) + m;
    Layout4(su.encG1(u), su.encG1(s), su.encG1(w), m);
    if nym.Some? {
      var d := ChallengeInput(su, u, s, w, m, nym);
      Layout4(head, su.encG1(nym.value.kU), su.encG1(nym.value.k), su.encG1(nym.value.base));
      assert d[..|head|] == head;
      HeadFields(d, head, su.G1Length());
    }
  }

  lemma HeadFields(d: Bytes, head: Bytes, g: nat)
    requires |head| <= |d| && d[..|head|] == head && 3 * g <= |head|
    ensures d[..g] == head[..g] && d[g..2 * g] == head[g..2 * g] && d[2 * g..3 * g] == head[2 * g..3 * g]
    ensures d[3 * g..|head|] == head[3 * g..]
  {
    SubSlice(d, 0, |head|, 0, g);
    SubSlice(d, 0, |head|, g, 2 * g);
    SubSlice(d, 0, |head|, 2 * g, 3 * g);
    SubSlice(d, 0, |head|, 3 * g, |head|);
  }

  /** What deflating leaves of a signature: challenge, response, replay nonce and pseudonym. */
  lemma DeflatedParts(su: Suite, g: Signature)
    requires su.Valid() && SignatureOf(su, g)
    ensures DeflateSignature(su, EncodeSignature(su, g))
         == su.encScalar(g.c) + su.encScalar(g.s) + su.encScalar(g.n) + if g.k.Some? then su.encG1(g.k.value) else []
  {
    var s, e := EncodeSignature(su, g), 64 + su.CredentialLength();
    SignatureLayout(su, g);
    assert s[..64] == s[0..32] + s[32..64];
    assert s[e..] == s[e..su.SignatureLength()] + s[su.SignatureLength()..];
  }
}
