/** What the hashed transcripts bind. Each statement is about the very inputs that were hashed:
    as long as the hash tells those apart, nothing that was hashed can be exchanged. */
module Binding {
  import opened Options
  import opened Residues
  import opened Bytes
  import opened Ecdaa
  import opened EcdaaTheorems

  /** The hash does not confuse these two inputs. */
  predicate Distinguishes(su: Suite, a: Bytes, b: Bytes) {
    su.hashToScalar(a) == su.hashToScalar(b) ==> a == b
  }

  lemma SamePoint(su: Suite, u: int, v: int)
    requires su.Valid() && Residue(u, su.q) && Residue(v, su.q)
    ensures su.encG1(u) == su.encG1(v) <==> u == v
  {
    assert su.decG1(su.encG1(u)) == Some(u) && su.decG1(su.encG1(v)) == Some(v);
  }

  lemma SameScalar(su: Suite, u: int, v: int)
    requires su.Valid() && Residue(u, su.q) && Residue(v, su.q)
    ensures su.encScalar(u) == su.encScalar(v) <==> u == v
  {
    assert su.decScalar(su.encScalar(u)) == Some(u) && su.decScalar(su.encScalar(v)) == Some(v);
  }

  /** Three fixed-length parts and a rest determine the whole and are determined by it. */
  lemma PartsDetermined(a: Bytes, b: Bytes, c: Bytes, d: Bytes, a': Bytes, b': Bytes, c': Bytes, d': Bytes)
    requires |a| == |a'| && |b| == |b'| && |c| == |c'|
    ensures a + b + c + d == a' + b' + c' + d' <==> a == a' && b == b' && c == c' && d == d'
  {
    if a + b + c + d == a' + b' + c' + d' {
      Layout4(a, b, c, d);
      Layout4(a', b', c', d');
    }
  }

  lemma TailDetermined(d: Bytes, a: Bytes, b: Bytes, c: Bytes, d': Bytes, a': Bytes, b': Bytes, c': Bytes)
    requires |a| == |a'| && |b| == |b'| && |c| == |c'|
    ensures d + a + b + c == d' + a' + b' + c' <==> a == a' && b == b' && c == c' && d == d'
  {
    if d + a + b + c == d' + a' + b' + c' {
      Layout4(d, a, b, c);
      Layout4(d', a', b', c');
    }
  }

  /** The points hashed by the member's proof or a challenge. */
  ghost predicate Points(su: Suite, u: int, s: int, w: int, nym: Option<Nym>) {
    && Residue(u, su.q) && Residue(s, su.q) && Residue(w, su.q)
    && (nym.Some? ==> Residue(nym.value.kU, su.q) && Residue(nym.value.k, su.q) && Residue(nym.value.base, su.q))
  }

  lemma InputDetermined(su: Suite, u: int, s: int, w: int, m: Bytes, nym: Option<Nym>,
                        u': int, s': int, w': int, m': Bytes, nym': Option<Nym>)
    requires su.Valid() && Points(su, u, s, w, nym) && Points(su, u', s', w', nym') && nym.Some? == nym'.Some?
    ensures ChallengeInput(su, u, s, w, m, nym) == ChallengeInput(su, u', s', w', m', nym')
       <==> u == u' && s == s' && w == w' && m == m' && nym == nym'
  {
    SamePoint(su, u, u');
    SamePoint(su, s, s');
    SamePoint(su, w, w');
    var data, data' := su.encG1(u) + su.encG1(s) + su.encG1(w) + m, su.encG1(u') + su.encG1(s') + su.encG1(w') + m';
    PartsDetermined(su.encG1(u), su.encG1(s), su.encG1(w), m, su.encG1(u'), su.encG1(s'), su.encG1(w'), m');
    if nym.Some? {
      var p, p' := nym.value, nym'.value;
      SamePoint(su, p.kU, p'.kU);
      SamePoint(su, p.k, p'.k);
      SamePoint(su, p.base, p'.base);
      TailDetermined(data, su.encG1(p.kU), su.encG1(p.k), su.encG1(p.base),
                     data', su.encG1(p'.kU), su.encG1(p'.k), su.encG1(p'.base));
    }
  }

  function OuterInput(su: Suite, n: int, inner: Bytes): Bytes {
    su.encScalar(n) + su.encScalar(su.hashToScalar(inner))
  }

  lemma OuterDetermined(su: Suite, n: int, inner: Bytes, n': int, inner': Bytes)
    requires su.Valid() && Residue(n, su.q) && Residue(n', su.q)
    ensures OuterInput(su, n, inner) == OuterInput(su, n', inner')
       <==> n == n' && su.hashToScalar(inner) == su.hashToScalar(inner')
  {
    var h, h' := su.hashToScalar(inner), su.hashToScalar(inner');
    SameScalar(su, n, n');
    SameScalar(su, h, h');
    assert OuterInput(su, n, inner)[..32] == su.encScalar(n) && OuterInput(su, n, inner)[32..] == su.encScalar(h);
    assert OuterInput(su, n', inner')[..32] == su.encScalar(n') && OuterInput(su, n', inner')[32..] == su.encScalar(h');
  }

  /** Equal challenges mean equal commitment, credential points, message, pseudonym and nonce. */
  lemma ChallengeBinds(su: Suite, u: int, s: int, w: int, m: Bytes, nym: Option<Nym>, n: int,
                       u': int, s': int, w': int, m': Bytes, nym': Option<Nym>, n': int)
    requires su.Valid() && Points(su, u, s, w, nym) && Points(su, u', s', w', nym') && nym.Some? == nym'.Some?
    requires Residue(n, su.q) && Residue(n', su.q)
    requires var d, d' := ChallengeInput(su, u, s, w, m, nym), ChallengeInput(su, u', s', w', m', nym');
             Distinguishes(su, d, d') && Distinguishes(su, OuterInput(su, n, d), OuterInput(su, n', d'))
    ensures Challenge(su, u, s, w, m, nym, n) == Challenge(su, u', s', w', m', nym', n')
       <==> u == u' && s == s' && w == w' && m == m' && nym == nym' && n == n'
  {
    var d, d' := ChallengeInput(su, u, s, w, m, nym), ChallengeInput(su, u', s', w', m', nym');
    InputDetermined(su, u, s, w, m, nym, u', s', w', m', nym');
    OuterDetermined(su, n, d, n', d');
    assert Challenge(su, u, s, w, m, nym, n) == su.hashToScalar(OuterInput(su, n, d));
    assert Challenge(su, u', s', w', m', nym', n') == su.hashToScalar(OuterInput(su, n', d'));
  }

  /** The pseudonym that verify hashes for a signature under a basename. */
  function HashedNym(su: Suite, g: Signature, basename: Option<Bytes>): Option<Nym>
    requires su.q > 0 && (basename.Some? ==> g.k.Some?)
  {
    if basename.None? then None else
    var base := su.hashToG1(basename.value);
    Some(Nym(RecomputedKU(su, g, base), g.k.value, base))
  }

  /** What verify hashes first for signature g. */
  function VerifiedInput(su: Suite, g: Signature, basename: Option<Bytes>, m: Bytes): Bytes
    requires su.q > 0 && (basename.Some? ==> g.k.Some?)
  {
    ChallengeInput(su, RecomputedU(su, g), g.cred.b, g.cred.d, m, HashedNym(su, g, basename))
  }

  /** The hash tells these two inputs apart, first by themselves and then under the nonce. */
  predicate InputsApart(su: Suite, n: int, d: Bytes, d': Bytes) {
    Distinguishes(su, d, d') && Distinguishes(su, OuterInput(su, n, d), OuterInput(su, n, d'))
  }

  /** What an acceptance says of the decoded signature. */
  lemma AcceptedMatches(su: Suite, sig: Bytes, gpk: Bytes, b: Option<Bytes>, cr: Option<Bytes>, m: Bytes)
    requires su.Valid() && |gpk| >= su.GroupKeyLength() && Verify(su, gpk, b, cr, sig, m)
    ensures |sig| >= if b.Some? then su.SignatureWithNymLength() else su.SignatureLength()
    ensures var g := DecodeSignature(su, sig, b.Some?);
            && g.Some? && (b.Some? ==> g.value.k.Some?) && Decoded(su, g.value)
            && ChallengeMatches(su, g.value, b, m)
  {
  }

  ghost predicate Decoded(su: Suite, g: Signature) {
    && Residue(g.cred.b, su.q) && Residue(g.cred.d, su.q) && Residue(g.n, su.q)
    && (g.k.Some? ==> Residue(g.k.value, su.q))
  }

  lemma SameKindBinds(su: Suite, g: Signature, b: Option<Bytes>, m: Bytes, b': Option<Bytes>, m': Bytes)
    requires su.Valid() && b.Some? == b'.Some? && (b.Some? ==> g.k.Some?) && Decoded(su, g)
    requires ChallengeMatches(su, g, b, m) && ChallengeMatches(su, g, b', m')
    requires InputsApart(su, g.n, VerifiedInput(su, g, b, m), VerifiedInput(su, g, b', m'))
    ensures m == m' && (b.Some? ==> su.hashToG1(b.value) == su.hashToG1(b'.value))
  {
    ChallengeOfInput(su, g, b, m);
    ChallengeOfInput(su, g, b', m');
    var u := RecomputedU(su, g);
    OuterDetermined(su, g.n, VerifiedInput(su, g, b, m), g.n, VerifiedInput(su, g, b', m'));
    InputDetermined(su, u, g.cred.b, g.cred.d, m, HashedNym(su, g, b), u, g.cred.b, g.cred.d, m', HashedNym(su, g, b'));
  }

  // ----- With and without a basename -----

  /** The message followed by the pseudonym part of what verify hashes under a basename. */
  function Extended(su: Suite, g: Signature, bsn: Bytes, m: Bytes): Bytes
    requires su.q > 0 && g.k.Some?
  {
    var nym := HashedNym(su, g, Some(bsn)).value;
    m + (su.encG1(nym.kU) + su.encG1(nym.k) + su.encG1(nym.base))
  }

  lemma TailRegrouped(a: Bytes, b: Bytes, c: Bytes, m: Bytes, x: Bytes, y: Bytes, z: Bytes)
    ensures a + b + c + m + x + y + z == a + b + c + (m + (x + y + z))
  {
  }

  /** What is hashed does not say whether there was a basename. */
  lemma SameInput(su: Suite, g: Signature, bsn: Bytes, m: Bytes)
    requires su.q > 0 && g.k.Some?
    ensures VerifiedInput(su, g, Some(bsn), m) == VerifiedInput(su, g, None, Extended(su, g, bsn, m))
  {
    var nym := HashedNym(su, g, Some(bsn)).value;
    TailRegrouped(su.encG1(RecomputedU(su, g)), su.encG1(g.cred.b), su.encG1(g.cred.d), m,
                  su.encG1(nym.kU), su.encG1(nym.k), su.encG1(nym.base));
  }

  lemma ChallengeOfInput(su: Suite, g: Signature, b: Option<Bytes>, m: Bytes)
    requires su.q > 0 && (b.Some? ==> g.k.Some?)
    ensures ChallengeMatches(su, g, b, m) <==> g.c == su.hashToScalar(OuterInput(su, g.n, VerifiedInput(su, g, b, m)))
  {
  }

  /** Reading a signature without its pseudonym gives the same but for the pseudonym. */
  lemma DecodedWithout(su: Suite, sig: Bytes)
    requires |sig| >= su.SignatureWithNymLength() && DecodeSignature(su, sig, true).Some?
    ensures DecodeSignature(su, sig, false) == Some(DecodeSignature(su, sig, true).value.(k := None))
    ensures DecodeSignature(su, sig, true).value.k.Some?
  {
  }

  lemma ChallengeWithout(su: Suite, g: Signature, bsn: Bytes, m: Bytes)
    requires su.q > 0 && g.k.Some?
    ensures ChallengeMatches(su, g, Some(bsn), m)
       <==> ChallengeMatches(su, g.(k := None), None, Extended(su, g, bsn, m))
  {
    SameInput(su, g, bsn, m);
    ChallengeOfInput(su, g, Some(bsn), m);
    ChallengeOfInput(su, g.(k := None), None, Extended(su, g, bsn, m));
  }

  /** Whatever is accepted under a basename is also accepted without one, for the extended message,
      and the other way round: a string that carries a pseudonym and a non-empty message fare the
      same either way. Nothing is assumed of the hash. */
  lemma AcceptedWithout(su: Suite, sig: Bytes, gpk: Bytes, bsn: Bytes, cr: Option<Bytes>, m: Bytes)
    requires su.Valid() && (gpk == [] || |gpk| >= su.GroupKeyLength())
    requires |sig| >= su.SignatureWithNymLength() && DecodeSignature(su, sig, true).Some?
    ensures DecodeSignature(su, sig, true).value.k.Some?
    ensures Verify(su, gpk, Some(bsn), cr, sig, m)
       <==> m != [] && Verify(su, gpk, None, cr, sig, Extended(su, DecodeSignature(su, sig, true).value, bsn, m))
  {
    DecodedWithout(su, sig);
    ChallengeWithout(su, DecodeSignature(su, sig, true).value, bsn, m);
  }

  /** Given such an acceptance the extended message is the only one that is accepted without a
      basename, whatever group key and credential it is checked against. */
  lemma SignatureBindsAcross(su: Suite, sig: Bytes, gpk: Bytes, bsn: Bytes, cr: Option<Bytes>, m: Bytes,
                             gpk': Bytes, cr': Option<Bytes>, m': Bytes)
    requires su.Valid() && |gpk| >= su.GroupKeyLength() && |gpk'| >= su.GroupKeyLength()
    requires Verify(su, gpk, Some(bsn), cr, sig, m)
    requires var g := DecodeSignature(su, sig, true).value;
             InputsApart(su, g.n, VerifiedInput(su, g, Some(bsn), m), VerifiedInput(su, g, None, m'))
    ensures var extended := Extended(su, DecodeSignature(su, sig, true).value, bsn, m);
            && (Verify(su, gpk', None, cr', sig, m') ==> m' == extended)
            && (Verify(su, gpk, None, cr, sig, m') <==> m' == extended)
  {
    AcceptedWithout(su, sig, gpk, bsn, cr, m);
    if Verify(su, gpk', None, cr', sig, m') || Verify(su, gpk, None, cr, sig, m') {
      DecodedWithout(su, sig);
      OnlyExtended(su, DecodeSignature(su, sig, true).value, bsn, m, m');
    }
  }

  lemma OnlyExtended(su: Suite, g: Signature, bsn: Bytes, m: Bytes, m': Bytes)
    requires su.Valid() && g.k.Some? && Residue(g.n, su.q)
    requires ChallengeMatches(su, g, Some(bsn), m) && ChallengeMatches(su, g.(k := None), None, m')
    requires var d, d' := VerifiedInput(su, g, Some(bsn), m), VerifiedInput(su, g, None, m');
             Distinguishes(su, d, d') && Distinguishes(su, OuterInput(su, g.n, d), OuterInput(su, g.n, d'))
    ensures m' == Extended(su, g, bsn, m)
  {
    var d, d' := VerifiedInput(su, g, Some(bsn), m), VerifiedInput(su, g, None, m');
    ChallengeOfInput(su, g, Some(bsn), m);
    ChallengeOfInput(su, g.(k := None), None, m');
    OuterDetermined(su, g.n, d, g.n, d');
    SameInput(su, g, bsn, m);
    SplitAfter(su.encG1(RecomputedU(su, g)) + su.encG1(g.cred.b) + su.encG1(g.cred.d), Extended(su, g, bsn, m), m');
  }

  /** A signature string accepted twice was accepted for one message and one basename point, or, if
      it was once with a basename and once without, for a message and its extension. This holds
      whatever group keys and credentials it was checked against. */
  lemma SignatureBinds(su: Suite, sig: Bytes, gpk: Bytes, b: Option<Bytes>, cr: Option<Bytes>, m: Bytes,
                       gpk': Bytes, b': Option<Bytes>, cr': Option<Bytes>, m': Bytes)
    requires su.Valid() && |gpk| >= su.GroupKeyLength() && |gpk'| >= su.GroupKeyLength()
    requires Verify(su, gpk, b, cr, sig, m) && Verify(su, gpk', b', cr', sig, m')
    requires var g, g' := DecodeSignature(su, sig, b.Some?).value, DecodeSignature(su, sig, b'.Some?).value;
             InputsApart(su, g.n, VerifiedInput(su, g, b, m), VerifiedInput(su, g', b', m'))
    ensures var g, g' := DecodeSignature(su, sig, b.Some?).value, DecodeSignature(su, sig, b'.Some?).value;
            match (b, b')
            case (None, None) => m == m'
            case (Some(bsn), Some(bsn')) => m == m' && su.hashToG1(bsn) == su.hashToG1(bsn')
            case (Some(bsn), None) => m' == Extended(su, g, bsn, m)
            case (None, Some(bsn')) => m == Extended(su, g', bsn', m')
  {
    if b.Some? == b'.Some? {
      AcceptedMatches(su, sig, gpk, b, cr, m);
      AcceptedMatches(su, sig, gpk', b', cr', m');
      SameKindBinds(su, DecodeSignature(su, sig, b.Some?).value, b, m, b', m');
    } else {
      DecodedWithout(su, sig);
      if b.Some? {
        SignatureBindsAcross(su, sig, gpk, b.value, cr, m, gpk', cr', m');
      } else {
        SignatureBindsAcross(su, sig, gpk', b'.value, cr', m', gpk, cr, m);
      }
    }
  }

  lemma SplitAfter(head: Bytes, m: Bytes, m': Bytes)
    requires head + m == head + m'
    ensures m == m'
  {
    assert (head + m)[|head|..] == m && (head + m')[|head|..] == m';
  }

  // ----- Member keys -----

  /** What the issuer hashes to check a member key under a nonce. */
  function CheckedInput(su: Suite, memberKey: Bytes, nonce: Bytes): Bytes
    requires su.q > 0
  {
    if |memberKey| < su.MemberKeyLength() then [] else
    var g, b := su.G1Length(), su.hashToG1(nonce);
    match (PointAt(su, memberKey, 0), ScalarAt(su, memberKey, g), ScalarAt(su, memberKey, g + SCALAR_LENGTH))
    case (Some(k), Some(c), Some(s)) => MemberInput(su, Minus(su.Mul(b, s), su.Mul(k, c), su.q), b, k, nonce)
    case _ => []
  }

  /** A member key is accepted under at most one nonce: its proof cannot be replayed. */
  lemma MemberKeyBindsNonce(su: Suite, memberKey: Bytes, isk: Bytes, nonce: Bytes, r: int, isk': Bytes,
                            nonce': Bytes, r': int)
    requires su.Valid() && |memberKey| >= su.MemberKeyLength()
    requires IssueCredential(su, memberKey, isk, nonce, r).Some? && IssueCredential(su, memberKey, isk', nonce',
            r').Some?
    requires Distinguishes(su, CheckedInput(su, memberKey, nonce), CheckedInput(su, memberKey, nonce'))
    ensures nonce == nonce'
  {
    var g := su.G1Length();
    var k, c, s := PointAt(su, memberKey, 0).value, ScalarAt(su, memberKey, g).value, ScalarAt(su, memberKey,
            g + SCALAR_LENGTH).value;
    var b, b' := su.hashToG1(nonce), su.hashToG1(nonce');
    var u, u' := Minus(su.Mul(b, s), su.Mul(k, c), su.q), Minus(su.Mul(b', s), su.Mul(k, c), su.q);
    PartsDetermined(su.encG1(u), su.encG1(b), su.encG1(k), nonce, su.encG1(u'), su.encG1(b'), su.encG1(k), nonce');
  }

  /** Whatever member key the issuer accepts, honest or not, the credential it writes is in its
      own group exactly when the nonce's point is not the identity and the group key decodes. */
  lemma IssuedInGroup(su: Suite, memberKey: Bytes, x: int, y: int, nonce: Bytes, r: int)
    requires su.Valid() && Residue(x, su.q) && Residue(y, su.q)
    requires IssueCredential(su, memberKey, GenerateIssuerKeypair(su, x, y).secretKey, nonce, r).Some?
    ensures var issuer := GenerateIssuerKeypair(su, x, y);
            var cred := IssueCredential(su, memberKey, issuer.secretKey, nonce, r).value.credential;
            CredentialInGroup(su, cred, issuer.publicKey) <==> su.hashToG1(nonce) != 0 && G2Decodes(su, x)
  {
    var q, b, k := su.q, su.hashToG1(nonce), PointAt(su, memberKey, 0).value;
    IssuerKeyDecodes(su, x, y);
    var cred := IssuedCredential(su, b, k, x, Inverse(y, q));
    CredentialRoundTrip(su, cred);
    GroupKeyRoundTrip(su, x, y);
    if b != 0 {
      var sk := su.Mul(Inverse(b, q), k);
      TimesAssociates(b, Inverse(b, q), k, q);
      TimesOne(k, q);
      HonestPairings(su, cred, x, y, sk);
    }
  }
}
