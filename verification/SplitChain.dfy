/** Whole split-key runs: the chained TTC -> NAC join of the integration layer, and a split
    wallet's life from join to verified signature. */
module SplitChain {
  import opened Options
  import opened Residues
  import opened Bytes
  import opened Ecdaa
  import opened EcdaaTheorems
  import opened Binding
  import opened SplitEcdaa

  /** The state the host hands from step to step; the wallet's own record is left out. */
  datatype SplitKeyState = SplitKeyState(
    hwId: Bytes,
    hostSkTtc: Bytes, hostRTtc: Bytes, qCardTtc: Bytes, uCardTtc: Bytes, cTtc: Bytes, qTtcCombined: Bytes,
    hostSkNac: Bytes, hostRNac: Bytes, qCardNac: Bytes, uCardNac: Bytes, cNac: Bytes)

  function SplitKeyStart(hwId: Bytes): SplitKeyState {
    SplitKeyState(hwId, [], [], [], [], [], [], [], [], [], [], [])
  }

  function SplitKeyAfterTtcCommit(su: Suite, state: SplitKeyState, qCard: Bytes, uCard: Bytes, hostSk: int,
                                  rHost: int): Option<SplitKeyState>
    requires su.q > 0
  {
    match HostCommitAndChallenge(su, state.hwId, qCard, uCard, hostSk, rHost)
    case None => None
    case Some(h) => Some(SplitKeyStart(state.hwId).(hostSkTtc := h.hostSk, hostRTtc := h.hostR, qCardTtc := qCard,
                                                    uCardTtc := uCard, cTtc := h.c, qTtcCombined := h.qCombined))
  }

  function SplitKeyAfterNacCommit(su: Suite, state: SplitKeyState, qCard: Bytes, uCard: Bytes, hostSk: int,
                                  rHost: int): Option<SplitKeyState>
    requires su.q > 0
  {
    match HostCommitAndChallenge(su, state.qTtcCombined, qCard, uCard, hostSk, rHost)
    case None => None
    case Some(h) => Some(state.(hostSkNac := h.hostSk, hostRNac := h.hostR, qCardNac := qCard, uCardNac := uCard,
                                cNac := h.c))
  }

  datatype WalletKeys = WalletKeys(ttcPk: Bytes, nacPk: Bytes)

  function SplitKeyComplete(su: Suite, state: SplitKeyState, sCardTtc: Bytes, sCardNac: Bytes, nTtc: int,
                            nNac: int): Option<WalletKeys>
    requires su.q > 0
  {
    match (FinalizedTtc(su, state, sCardTtc, nTtc), FinalizedNac(su, state, sCardNac, nNac))
    case (Some(ttc), Some(nac)) => Some(WalletKeys(ttc, nac))
    case _ => None
  }

  /** The random scalars of one join. */
  datatype JoinRandomness = JoinRandomness(rCard: int, hostSk: int, rHost: int, n: int)

  ghost predicate Drawn(su: Suite, j: JoinRandomness) {
    Residue(j.rCard, su.q) && Residue(j.hostSk, su.q) && Residue(j.rHost, su.q) && Residue(j.n, su.q)
  }

  function WholeKey(su: Suite, nonce: Bytes, cardSk: int, j: JoinRandomness): Option<KeyPair>
    requires su.q > 0
  {
    GenerateWalletKeypair(su, nonce, su.Sum(cardSk, j.hostSk), su.Sum(j.rCard, j.rHost), j.n)
  }

  /** The card's two messages before the challenge. */
  method CardCommits(card: MockCard, nonce: Bytes, base: Bytes, r: int) returns (qCard: Bytes, uCard: Bytes)
    requires card.Valid() && Residue(r, card.su.q) && base == SplitBasePoint(card.su, nonce)
    modifies card
    ensures card.Valid() && card.rCard == Some(r)
    ensures qCard == card.su.encG1(card.su.Mul(card.su.hashToG1(nonce), card.cardSk))
    ensures uCard == card.su.encG1(card.su.Mul(card.su.hashToG1(nonce), r))
  {
    PointDecodes(card.su, card.su.hashToG1(nonce));
    qCard := card.PublicKeyShare(base);
    var u := card.JoinCommit(base, r);
    uCard := u.value;
  }

  function FinalizedTtc(su: Suite, st: SplitKeyState, sCard: Bytes, n: int): Option<Bytes>
    requires su.q > 0
  {
    JoinFinalize(su, st.hwId, st.qCardTtc, st.hostSkTtc, st.hostRTtc, st.cTtc, sCard, n)
  }

  function FinalizedNac(su: Suite, st: SplitKeyState, sCard: Bytes, n: int): Option<Bytes>
    requires su.q > 0
  {
    JoinFinalize(su, st.qTtcCombined, st.qCardNac, st.hostSkNac, st.hostRNac, st.cNac, sCard, n)
  }

  function CombinedPoint(su: Suite, nonce: Bytes, cardSk: int, hostSk: int): Bytes
    requires su.q > 0
  {
    su.encG1(su.Mul(su.hashToG1(nonce), su.Sum(cardSk, hostSk)))
  }

  method TtcRound(su: Suite, hwId: Bytes, card: MockCard, t: JoinRandomness)
    returns (st: SplitKeyState, sCard: Bytes)
    requires card.Valid() && card.su == su && hwId != [] && Drawn(su, t)
    modifies card
    ensures card.Valid() && card.rCard == None && st.hwId == hwId
    ensures st.qTtcCombined == CombinedPoint(su, hwId, card.cardSk, t.hostSk) && |st.qTtcCombined| == su.G1Length()
    ensures WholeKey(su, hwId, card.cardSk, t).Some?
            && FinalizedTtc(su, st, sCard, t.n) == Some(WholeKey(su, hwId, card.cardSk, t).value.publicKey)
  {
    StagedJoin(su, hwId, card.cardSk, t.rCard, t.hostSk, t.rHost, t.n);
    var qCard, uCard := CardCommits(card, hwId, SplitBasePoint(su, hwId), t.rCard);
    st := SplitKeyAfterTtcCommit(su, SplitKeyStart(hwId), qCard, uCard, t.hostSk, t.rHost).value;
    var s := card.Respond(st.cTtc);
    sCard := s.value;
  }

  method NacRound(su: Suite, st: SplitKeyState, card: MockCard, v: JoinRandomness)
    returns (st': SplitKeyState, sCard: Bytes)
    requires card.Valid() && card.su == su && st.qTtcCombined != [] && Drawn(su, v)
    modifies card
    ensures card.Valid() && card.rCard == None
    ensures forall s, n :: FinalizedTtc(su, st', s, n) == FinalizedTtc(su, st, s, n)
    ensures WholeKey(su, st.qTtcCombined, card.cardSk, v).Some?
            && FinalizedNac(su, st', sCard, v.n) == Some(WholeKey(su, st.qTtcCombined, card.cardSk, v).value.publicKey)
  {
    var nonce := st.qTtcCombined;
    StagedJoin(su, nonce, card.cardSk, v.rCard, v.hostSk, v.rHost, v.n);
    var qCard, uCard := CardCommits(card, nonce, SplitBasePoint(su, nonce), v.rCard);
    st' := SplitKeyAfterNacCommit(su, st, qCard, uCard, v.hostSk, v.rHost).value;
    var s := card.Respond(st'.cNac);
    sCard := s.value;
  }

  /** The chained run against two cards (or one card used twice). Both keys are those of single
      parties holding the summed secrets, the NAC one under the combined TTC point as nonce. */
  method ChainedJoin(su: Suite, hwId: Bytes, ttcCard: MockCard, nacCard: MockCard, t: JoinRandomness, v: JoinRandomness)
    returns (keys: Option<WalletKeys>)
    requires ttcCard.Valid() && nacCard.Valid() && ttcCard.su == su && nacCard.su == su
    requires hwId != [] && Drawn(su, t) && Drawn(su, v)
    modifies ttcCard, nacCard
    ensures ttcCard.Valid() && nacCard.Valid() && ttcCard.rCard == None && nacCard.rCard == None
    ensures var qTtc := CombinedPoint(su, hwId, ttcCard.cardSk, t.hostSk);
            && |qTtc| == su.G1Length()
            && WholeKey(su, hwId, ttcCard.cardSk, t).Some? && WholeKey(su, qTtc, nacCard.cardSk, v).Some?
            && keys == Some(WalletKeys(WholeKey(su, hwId, ttcCard.cardSk, t).value.publicKey,
                                       WholeKey(su, qTtc, nacCard.cardSk, v).value.publicKey))
  {
    var step1, sCardTtc := TtcRound(su, hwId, ttcCard, t);
    var step2, sCardNac := NacRound(su, step1, nacCard, v);
    keys := SplitKeyComplete(su, step2, sCardTtc, sCardNac, t.n, v.n);
  }

  /** Both keys of a chained run pass the issuer's proof check, each under the nonce the chain
      used for it: issuing fails only for an issuer key with y = 0. */
  lemma ChainedKeysIssue(su: Suite, hwId: Bytes, ttcSk: int, nacSk: int, t: JoinRandomness, v: JoinRandomness,
                         x: int, y: int, ri: int)
    requires su.Valid() && hwId != [] && Residue(ttcSk, su.q) && Residue(nacSk, su.q) && Drawn(su, t) && Drawn(su, v)
    requires Residue(x, su.q) && Residue(y, su.q) && Residue(ri, su.q)
    ensures var qTtc := CombinedPoint(su, hwId, ttcSk, t.hostSk);
            var ttc, nac := WholeKey(su, hwId, ttcSk, t), WholeKey(su, qTtc, nacSk, v);
            var isk := GenerateIssuerKeypair(su, x, y).secretKey;
            && ttc.Some? && nac.Some?
            && (IssueCredential(su, ttc.value.publicKey, isk, hwId, ri).Some? <==> y != 0)
            && (IssueCredential(su, nac.value.publicKey, isk, qTtc, ri).Some? <==> y != 0)
  {
    var qTtc := CombinedPoint(su, hwId, ttcSk, t.hostSk);
    IssueHonest(su, hwId, su.Sum(ttcSk, t.hostSk), su.Sum(t.rCard, t.rHost), t.n, x, y, ri);
    IssueHonest(su, qTtc, su.Sum(nacSk, v.hostSk), su.Sum(v.rCard, v.rHost), v.n, x, y, ri);
  }

  /** Under the whole TTC key, which is what the registrar passes as the NAC nonce, the issuer refuses
      the chained NAC key, whatever issuer key it uses, unless the hash confuses the two inputs. */
  lemma ChainedNacRefused(su: Suite, hwId: Bytes, ttcSk: int, nacSk: int, t: JoinRandomness, v: JoinRandomness,
                          ttc: KeyPair, nac: KeyPair, isk: Bytes, ri: int)
    requires su.Valid() && hwId != [] && Residue(ttcSk, su.q) && Residue(nacSk, su.q) && Drawn(su, t) && Drawn(su, v)
    requires WholeKey(su, hwId, ttcSk, t) == Some(ttc) && Residue(ri, su.q)
    requires var qTtc := CombinedPoint(su, hwId, ttcSk, t.hostSk);
             && WholeKey(su, qTtc, nacSk, v) == Some(nac)
             && Distinguishes(su, CheckedInput(su, nac.publicKey, qTtc), CheckedInput(su, nac.publicKey, ttc.publicKey))
    ensures IssueCredential(su, nac.publicKey, isk, ttc.publicKey, ri).None?
  {
    var qTtc := CombinedPoint(su, hwId, ttcSk, t.hostSk);
    ChainedKeysIssue(su, hwId, ttcSk, nacSk, t, v, 1, 1, ri);
    assert |qTtc| == su.G1Length() < su.MemberKeyLength() == |ttc.publicKey|;
    if IssueCredential(su, nac.publicKey, isk, ttc.publicKey, ri).Some? {
      var isk' := GenerateIssuerKeypair(su, 1, 1).secretKey;
      MemberKeyBindsNonce(su, nac.publicKey, isk', qTtc, ri, isk, ttc.publicKey, ri);
    }
  }

  /** A split wallet's life: join, issue, sign together, verify. Acceptance depends on the summed
      secret exactly as for an unsplit wallet, and the card's nonce is spent. */
  method SplitLife(card: MockCard, nonce: Bytes, j: JoinRandomness, x: int, y: int, ri: int,
                   message: Bytes, basename: Option<Bytes>, randomize: bool, l: int, rCard: int, rHost: int, n: int)
    returns (accepted: bool)
    requires card.Valid() && nonce != [] && message != [] && basename != Some([]) && Drawn(card.su, j)
    requires forall v | v in [x, y, ri, l, rCard, rHost, n] :: Residue(v, card.su.q)
    requires y != 0
    modifies card
    ensures card.Valid() && card.rCard == None
    ensures accepted
       <==> NonDegenerate(card.su, nonce, x, y, card.su.Sum(card.cardSk, j.hostSk)) && (randomize ==> l != 0)
  {
    var su := card.su;
    ghost var sk, rk := su.Sum(card.cardSk, j.hostSk), su.Sum(j.rCard, j.rHost);
    ghost var r := su.Sum(rCard, rHost);
    assert forall v :: v in [x, y, ri, l, rCard, rHost, n] ==> Residue(v, su.q);
    assert x in [x, y, ri, l, rCard, rHost, n] && n in [x, y, ri, l, rCard, rHost, n];
    EndToEnd(su, nonce, sk, rk, j.n, x, y, ri, [], message, basename, randomize, l, r, n);
    var issuer := GenerateIssuerKeypair(su, x, y);
    var key := GenerateSplitWalletKeypair(card, nonce, j.rCard, j.hostSk, j.rHost, j.n);
    var issued := IssueCredential(su, key.value.publicKey, issuer.secretKey, nonce, ri);
    SecretDecodes(su, j.hostSk);
    var ok, signature := SignSplit(card, key.value.secretKey, message, issued.value.credential, basename,
                                   randomize, l, rCard, rHost, n, []);
    accepted := Verify(su, issuer.publicKey, basename, None, signature, message);
  }
}
