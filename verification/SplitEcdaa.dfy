/** Split-key ECDAA: a card holding one additive share of the secret signs together with a host
    holding the other. Random draws are explicit arguments. */
module SplitEcdaa {
  import opened Options
  import opened Modular
  import opened Residues
  import opened Bytes
  import opened Ecdaa
  import opened EcdaaTheorems

  datatype CardSignCommitment = CardSignCommitment(uCard: Bytes, kCard: Option<Bytes>, kUCard: Option<Bytes>)

  datatype SmartCardError = BloomFilterHit | SwapAuthFailed | NoSwapKey | Other(sw: nat)

  class MockCard {
    const su: Suite
    const cardSk: int
    var rCard: Option<int>

    ghost predicate Valid()
      reads this
    {
      su.Valid() && Residue(cardSk, su.q) && (rCard.Some? ==> Residue(rCard.value, su.q))
    }

    constructor (su: Suite, sk: int)
      requires su.Valid() && Residue(sk, su.q)
      ensures Valid() && this.su == su && cardSk == sk && rCard == None
    {
      this.su, cardSk, rCard := su, sk, None;
    }

    function PublicKeyShare(base: Bytes): Bytes
      requires su.q > 0 && DeserializeG1(su, base).Some?
    {
      su.encG1(su.Mul(DeserializeG1(su, base).value, cardSk))
    }

    /** On a basename that does not decode the nonce has been replaced although nothing is returned. */
    method SignCommit(sPoint: Bytes, basenameBase: Option<Bytes>, r: int) returns (out: Option<CardSignCommitment>)
      requires Valid() && Residue(r, su.q)
      modifies this
      ensures Valid()
      ensures var s := DeserializeG1(su, sPoint);
              var base := if basenameBase.Some? then DeserializeG1(su, basenameBase.value) else None;
              && rCard == (if s.None? then old(rCard) else Some(r))
              && (out.Some? <==> s.Some? && (basenameBase.Some? ==> base.Some?))
              && (out.Some? ==>
                   && out.value.uCard == su.encG1(su.Mul(s.value, r))
                   && out.value.kCard == (if base.Some? then Some(su.encG1(su.Mul(base.value, cardSk))) else None)
                   && out.value.kUCard == (if base.Some? then Some(su.encG1(su.Mul(base.value, r))) else None))
    {
      var s := DeserializeG1(su, sPoint);
      if s.None? { return None; }
      rCard := Some(r);
      var uCard := su.encG1(su.Mul(s.value, r));
      if basenameBase.None? {
        return Some(CardSignCommitment(uCard, None, None));
      }
      var base := DeserializeG1(su, basenameBase.value);
      if base.None? { return None; }
      var k, kU := su.Mul(base.value, cardSk), su.Mul(base.value, r);
      out := Some(CardSignCommitment(uCard, Some(su.encG1(k)), Some(su.encG1(kU))));
    }

    /** Answers at most once per nonce: a decodable challenge consumes it. */
    method Respond(challenge: Bytes) returns (out: Option<Bytes>)
      requires Valid()
      modifies this
      ensures Valid()
      ensures var c := DeserializeScalar(su, challenge);
              && rCard == (if c.None? then old(rCard) else None)
              && (out.Some? <==> c.Some? && old(rCard).Some?)
              && (out.Some? ==> out.value == su.encScalar(su.Sum(old(rCard).value, su.Mul(c.value, cardSk))))
    {
      var c := DeserializeScalar(su, challenge);
      if c.None? { return None; }
      var r := rCard;
      rCard := None;
      if r.None? { return None; }
      out := Some(su.encScalar(su.Sum(r.value, su.Mul(c.value, cardSk))));
    }

    method JoinCommit(base: Bytes, r: int) returns (out: Option<Bytes>)
      requires Valid() && Residue(r, su.q)
      modifies this
      ensures Valid()
      ensures var b := DeserializeG1(su, base);
              && rCard == (if b.None? then old(rCard) else Some(r))
              && out == (if b.None? then None else Some(su.encG1(su.Mul(b.value, r))))
    {
      var b := DeserializeG1(su, base);
      if b.None? { return None; }
      rCard := Some(r);
      out := Some(su.encG1(su.Mul(b.value, r)));
    }
  }

  // ----- Signing -----

  /** Signing with a swap authorisation needs a basename in v0 only. */
  predicate SwapRefused(su: Suite, basename: Option<Bytes>, withSwapAuth: bool) {
    withSwapAuth && su.version.BN254? && basename.None?
  }

  /** The two-phase exchange on a decoded credential: commitments, challenge, responses. */
  method Exchange(card: MockCard, hSk: int, message: Bytes, cred: Credential, basename: Option<Bytes>,
                  rCard: int, rHost: int, n: int)
    returns (g: Signature)
    requires card.Valid() && CredentialOf(card.su, cred) && Residue(hSk, card.su.q)
    requires Residue(rCard, card.su.q) && Residue(rHost, card.su.q) && Residue(n, card.su.q)
    modifies card
    ensures card.Valid() && card.rCard == None
    ensures g == HonestSignature(card.su, message, cred, card.su.Sum(card.cardSk, hSk), basename,
                                 card.su.Sum(rCard, rHost), n)
  {
    var su := card.su;
    var base := if basename.Some? then su.hashToG1(basename.value) else 0;
    PointDecodes(su, cred.b);
    PointDecodes(su, base);
    PointDecodes(su, su.Mul(cred.b, rCard));
    PointDecodes(su, su.Mul(base, card.cardSk));
    PointDecodes(su, su.Mul(base, rCard));

    var baseBytes := if basename.Some? then Some(su.encG1(base)) else None;
    var commit := card.SignCommit(su.encG1(cred.b), baseBytes, rCard);
    var u := su.Sum(DeserializeG1(su, commit.value.uCard).value, su.Mul(cred.b, rHost));
    TimesPlus(cred.b, rCard, rHost, su.q);

    var nym: Option<Nym> := None;
    if basename.Some? {
      var k := su.Sum(DeserializeG1(su, commit.value.kCard.value).value, su.Mul(base, hSk));
      var kU := su.Sum(DeserializeG1(su, commit.value.kUCard.value).value, su.Mul(base, rHost));
      nym := Some(Nym(kU, k, base));
      TimesPlus(base, card.cardSk, hSk, su.q);
      TimesPlus(base, rCard, rHost, su.q);
    }
    var sigC := Challenge(su, u, cred.b, cred.d, message, nym, n);

    SecretDecodes(su, sigC);
    var response := card.Respond(su.encScalar(sigC));
    SecretDecodes(su, su.Sum(rCard, su.Mul(sigC, card.cardSk)));
    var sCard := DeserializeScalar(su, response.value).value;
    var sigS := su.Sum(sCard, su.Sum(rHost, su.Mul(sigC, hSk)));
    SchnorrShares(rCard, rHost, sigC, card.cardSk, hSk, su.q);
    g := Signature(sigC, sigS, cred, n, if nym.Some? then Some(nym.value.k) else None);
  }

  /** sign_split_ext: what card and host write together is byte for byte what sign writes under
      the summed secret and the summed nonce. */
  method SignSplitExt(card: MockCard, hostSk: Bytes, message: Bytes, credential: Bytes, basename: Option<Bytes>,
                      randomize: bool, withSwapAuth: bool, l: int, rCard: int, rHost: int, n: int, previous: Bytes)
    returns (error: Option<SmartCardError>, signature: Bytes)
    requires card.Valid() && (credential == [] || |credential| >= card.su.CredentialLength())
    requires Residue(rCard, card.su.q) && Residue(rHost, card.su.q) && Residue(n, card.su.q)
    modifies card
    ensures card.Valid()
    ensures var su, h := card.su, DeserializeScalar(card.su, hostSk);
            var refused := withSwapAuth && su.version.BN254? && basename.None?;
            var spec := if h.None? || refused then None else
                        SignatureBytes(su, message, credential, su.encScalar(su.Sum(card.cardSk, h.value)),
                                       basename, randomize, l, su.Sum(rCard, rHost), n);
            && error == (if spec.Some? then None else Some(Other(0)))
            && signature == (if spec.Some? then spec.value else previous)
            && card.rCard == (if spec.Some? then None else old(card.rCard))
  {
    var su := card.su;
    error, signature := Some(Other(0)), previous;
    if message == [] || credential == [] || hostSk == [] { return; }
    if basename.Some? && basename.value == [] { return; }
    var cred := DecodeCredential(su, credential);
    if cred.None? { return; }
    var hostKey := DeserializeScalar(su, hostSk);
    if hostKey.None? { return; }
    var k := cred.value;
    if randomize {
      k := Scale(su, k, l);
    }
    if SwapRefused(su, basename, withSwapAuth) { return; }
    SecretDecodes(su, su.Sum(card.cardSk, hostKey.value));
    var g := Exchange(card, hostKey.value, message, k, basename, rCard, rHost, n);
    error, signature := None, EncodeSignature(su, g);
  }

  /** sign_split: the same run, reporting only success. */
  method SignSplit(card: MockCard, hostSk: Bytes, message: Bytes, credential: Bytes, basename: Option<Bytes>,
                   randomize: bool, l: int, rCard: int, rHost: int, n: int, previous: Bytes)
    returns (ok: bool, signature: Bytes)
    requires card.Valid() && (credential == [] || |credential| >= card.su.CredentialLength())
    requires Residue(rCard, card.su.q) && Residue(rHost, card.su.q) && Residue(n, card.su.q)
    modifies card
    ensures card.Valid()
    ensures var su, h := card.su, DeserializeScalar(card.su, hostSk);
            var spec := if h.None? then None else
                        SignatureBytes(su, message, credential, su.encScalar(su.Sum(card.cardSk, h.value)),
                                       basename, randomize, l, su.Sum(rCard, rHost), n);
            && ok == spec.Some? && signature == (if ok then spec.value else previous)
            && card.rCard == (if ok then None else old(card.rCard))
  {
    var error;
    error, signature := SignSplitExt(card, hostSk, message, credential, basename, randomize, false, l, rCard,
                                     rHost, n, previous);
    ok := error.None?;
  }

  // ----- Blind join -----

  function SplitBasePoint(su: Suite, nonce: Bytes): Bytes {
    su.encG1(su.hashToG1(nonce))
  }

  datatype HostCommit = HostCommit(hostSk: Bytes, hostR: Bytes, c: Bytes, qCombined: Bytes)

  function HostCommitAndChallenge(su: Suite, nonce: Bytes, qCard: Bytes, uCard: Bytes, hostSk: int,
                                  rHost: int): Option<HostCommit>
    requires su.q > 0
  {
    var b := su.hashToG1(nonce);
    match (DeserializeG1(su, qCard), DeserializeG1(su, uCard))
    case (Some(qc), Some(uc)) =>
      var k := su.Sum(qc, su.Mul(b, hostSk));
      var u := su.Sum(uc, su.Mul(b, rHost));
      var c := MemberHash(su, u, b, k, nonce);
      Some(HostCommit(su.encScalar(hostSk), su.encScalar(rHost), su.encScalar(c), su.encG1(k)))
    case _ => None
  }

  function JoinFinalize(su: Suite, nonce: Bytes, qCard: Bytes, hostSk: Bytes, hostR: Bytes, c: Bytes, sCard: Bytes,
                        n: int): Option<Bytes>
    requires su.q > 0
  {
    var b := su.hashToG1(nonce);
    match (DeserializeG1(su, qCard), DeserializeScalar(su, hostSk))
    case (Some(qc), Some(h)) => (
      match (DeserializeScalar(su, hostR), DeserializeScalar(su, c), DeserializeScalar(su, sCard))
      case (Some(r), Some(cv), Some(sc)) =>
        var k := su.Sum(qc, su.Mul(b, h));
        var s := su.Sum(sc, su.Sum(r, su.Mul(cv, h)));
        Some(EncodeMemberKey(su, k, cv, s, n))
      case _ => None)
    case _ => None
  }

  /** Interactive join: the key published is the one a single party with the summed secret and
      nonce would publish. */
  method GenerateSplitWalletKeypair(card: MockCard, nonce: Bytes, rCard: int, hostSk: int, rHost: int, n: int)
    returns (out: Option<KeyPair>)
    requires card.Valid()
    requires Residue(rCard, card.su.q) && Residue(hostSk, card.su.q) && Residue(rHost, card.su.q) && Residue(n,
            card.su.q)
    modifies card
    ensures card.Valid()
    ensures var su := card.su;
            var whole := GenerateWalletKeypair(su, nonce, su.Sum(card.cardSk, hostSk), su.Sum(rCard, rHost), n);
            && out == (if whole.None? then None else Some(KeyPair(su.encScalar(hostSk), whole.value.publicKey)))
            && card.rCard == (if out.Some? then None else old(card.rCard))
  {
    if nonce == [] { return None; }
    var su := card.su;
    var b := su.hashToG1(nonce);
    PointDecodes(su, b);
    PointDecodes(su, su.Mul(b, card.cardSk));
    var qCard := DeserializeG1(su, card.PublicKeyShare(su.encG1(b))).value;
    var k := su.Sum(qCard, su.Mul(b, hostSk));
    TimesPlus(b, card.cardSk, hostSk, su.q);
    var uBytes := card.JoinCommit(su.encG1(b), rCard);
    PointDecodes(su, su.Mul(b, rCard));
    var u := su.Sum(DeserializeG1(su, uBytes.value).value, su.Mul(b, rHost));
    TimesPlus(b, rCard, rHost, su.q);
    var c := MemberHash(su, u, b, k, nonce);
    SecretDecodes(su, c);
    var sBytes := card.Respond(su.encScalar(c));
    SecretDecodes(su, su.Sum(rCard, su.Mul(c, card.cardSk)));
    var s := su.Sum(DeserializeScalar(su, sBytes.value).value, su.Sum(rHost, su.Mul(c, hostSk)));
    SchnorrShares(rCard, rHost, c, card.cardSk, hostSk, su.q);
    out := Some(KeyPair(su.encScalar(hostSk), EncodeMemberKey(su, k, c, s, n)));
  }

  /** Staged join against any honest card: same key again, and the staged challenge is the one
      the card must answer. */
  lemma StagedJoin(su: Suite, nonce: Bytes, cardSk: int, rCard: int, hostSk: int, rHost: int, n: int)
    requires su.Valid() && nonce != []
    requires Residue(cardSk, su.q) && Residue(rCard, su.q) && Residue(hostSk, su.q) && Residue(rHost, su.q)
            && Residue(n, su.q)
    ensures var b := su.hashToG1(nonce);
            var qCard, uCard := su.encG1(su.Mul(b, cardSk)), su.encG1(su.Mul(b, rCard));
            var host := HostCommitAndChallenge(su, nonce, qCard, uCard, hostSk, rHost);
            && host.Some? && DeserializeScalar(su, host.value.c).Some?
            && host.value.qCombined == su.encG1(su.Mul(b, su.Sum(cardSk, hostSk)))
            && var sCard := su.encScalar(su.Sum(rCard, su.Mul(DeserializeScalar(su, host.value.c).value, cardSk)));
            && JoinFinalize(su, nonce, qCard, host.value.hostSk, host.value.hostR, host.value.c, sCard, n)
               == Some(GenerateWalletKeypair(su, nonce, su.Sum(cardSk, hostSk), su.Sum(rCard, rHost),
                                             n).value.publicKey)
  {
    var b := su.hashToG1(nonce);
    PointDecodes(su, su.Mul(b, cardSk));
    PointDecodes(su, su.Mul(b, rCard));
    TimesPlus(b, cardSk, hostSk, su.q);
    TimesPlus(b, rCard, rHost, su.q);
    var c := MemberHash(su, su.Mul(b, su.Sum(rCard, rHost)), b, su.Mul(b, su.Sum(cardSk, hostSk)), nonce);
    SecretDecodes(su, c);
    SecretDecodes(su, hostSk);
    SecretDecodes(su, rHost);
    SecretDecodes(su, su.Sum(rCard, su.Mul(c, cardSk)));
    SchnorrShares(rCard, rHost, c, cardSk, hostSk, su.q);
  }

  /** verify_split_key_proof: a card share that is no identity and not the whole key. */
  predicate VerifySplitKeyProof(su: Suite, combinedKey: Bytes, cardKey: Bytes) {
    match (DeserializeG1(su, cardKey), DeserializeG1(su, combinedKey))
    case (Some(card), Some(combined)) => card != 0 && card != combined
    case _ => false
  }

  /** For an honestly joined key the check says exactly that both shares are non-zero, under a
      base that is not the identity. */
  lemma SplitKeyProofIff(su: Suite, nonce: Bytes, cardSk: int, r: int, hostSk: int, n: int)
    requires su.Valid() && nonce != []
    requires Residue(cardSk, su.q) && Residue(r, su.q) && Residue(hostSk, su.q) && Residue(n, su.q)
    ensures var b := su.hashToG1(nonce);
            var key := GenerateWalletKeypair(su, nonce, su.Sum(cardSk, hostSk), r, n).value.publicKey;
            VerifySplitKeyProof(su, key, su.encG1(su.Mul(b, cardSk))) <==> b != 0 && cardSk != 0 && hostSk != 0
  {
    var b := su.hashToG1(nonce);
    var k := su.Mul(b, su.Sum(cardSk, hostSk));
    var c := MemberHash(su, su.Mul(b, r), b, k, nonce);
    MemberKeyDecodes(su, k, c, su.Sum(r, su.Mul(c, su.Sum(cardSk, hostSk))), n);
    PointDecodes(su, su.Mul(b, cardSk));
    TimesNonZero(b, cardSk, su.q);
    if b != 0 {
      TimesInjective(b, cardSk, su.Sum(cardSk, hostSk), su.q);
      SumChanges(cardSk, hostSk, su.q);
    }
  }

  lemma SumChanges(a: int, b: int, q: int)
    requires q > 0 && Residue(a, q) && Residue(b, q)
    ensures Plus(a, b, q) == a <==> b == 0
  {
    ModUnique(a + b, if a + b < q then 0 else 1, if a + b < q then a + b else a + b - q, q);
  }
}
