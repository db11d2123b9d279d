/** The two languages meet: the host's protocol steps run against the card's commands, byte for
    byte, and give what a single party with the summed secret and nonce would produce. */
module CardProtocol {
  import opened Options
  import opened Residues
  import opened Bytes
  import opened Ecdaa
  import opened EcdaaTheorems
  import opened SplitEcdaa
  import opened CardArithmetic
  import opened SwapAuth
  import BloomFilter
  import CardSpec

  /** The bytes of a reply that carries data. */
  function Data(reply: CardSpec.Reply): Bytes {
    if reply.Ok? then reply.data else []
  }

  /** Signing without a basename: SIGN_COMMIT, the host's challenge, SIGN_RESPOND. */
  lemma CardSigns(su: Suite, env: CardSpec.CardEnv, st: CardSpec.CardState, cardSk: int, hostSk: int,
                  message: Bytes, cred: Credential, rnd: nat, rHost: int, n: int)
    requires CardOf(su, env, st, cardSk) && CredentialOf(su, cred)
    requires Residue(hostSk, su.q) && Residue(rHost, su.q) && Residue(n, su.q)
    ensures var committed := CardSpec.SignCommitStep(env, st, CardSpec.Plain, su.encG1(cred.b), rnd);
            var uCard := DeserializeG1(su, Data(committed.reply));
            && committed.reply.Ok? && uCard.Some?
            && var c := Challenge(su, su.Sum(uCard.value, su.Mul(cred.b, rHost)), cred.b, cred.d, message, None, n);
               var answered := CardSpec.RespondStep(env, committed.state, CardSpec.Sign, su.encScalar(c));
               var sCard := DeserializeScalar(su, Data(answered.reply));
               && answered.reply.Ok? && sCard.Some? && answered.state.session.NoSession?
               && Signature(c, su.Sum(sCard.value, su.Sum(rHost, su.Mul(c, hostSk))), cred, n, None)
                  == HonestSignature(su, message, cred, su.Sum(cardSk, hostSk), None, su.Sum(rnd % su.q, rHost), n)
  {
    var r := rnd % su.q;
    var u := su.Sum(su.Mul(cred.b, r), su.Mul(cred.b, rHost));
    var c := Challenge(su, u, cred.b, cred.d, message, None, n);
    SignMatches(su, env, st, cardSk, cred.b, rnd, c);
    PointDecodes(su, su.Mul(cred.b, r));
    TimesPlus(cred.b, r, rHost, su.q);
    SecretDecodes(su, su.Sum(r, su.Mul(c, cardSk)));
    SchnorrShares(r, rHost, c, cardSk, hostSk, su.q);
    AnswerClosesSession(env, st, cardSk, su.encG1(cred.b), rnd, su.encScalar(c));
  }

  lemma AnswerClosesSession(env: CardSpec.CardEnv, st: CardSpec.CardState, sk: int, point: Bytes, rnd: nat, c: Bytes)
    requires env.Valid() && st.key.Some? && |c| == CardSpec.FR_BYTES
    requires CardSpec.SignCommitStep(env, st, CardSpec.Plain, point, rnd).reply.Ok?
    ensures var committed := CardSpec.SignCommitStep(env, st, CardSpec.Plain, point, rnd).state;
            CardSpec.RespondStep(env, committed, CardSpec.Sign, c).state.session.NoSession?
  {
  }

  /** The signature a host assembles from a commit with a basename, given the decoded third output. */
  function NymSignature(su: Suite, message: Bytes, cred: Credential, sk: int, base: int, third: int,
                        r: int, rHost: int, n: int): Signature
    requires su.q > 0
  {
    var rSum := su.Sum(r, rHost);
    var nym := Nym(su.Sum(third, su.Mul(base, rHost)), su.Mul(base, sk), base);
    var c := Challenge(su, su.Mul(cred.b, rSum), cred.b, cred.d, message, Some(nym), n);
    Signature(c, su.Sum(rSum, su.Mul(c, sk)), cred, n, Some(nym.k))
  }

  /** Signing with a basename is decided by the card's third output alone. If it is the intended
      multiple the result is the honest signature; otherwise the verifier, which recomputes that
      multiple, accepts the challenge only if two different hash inputs give the same challenge. */
  lemma ThirdOutputDecides(su: Suite, message: Bytes, cred: Credential, sk: int, bsn: Bytes, third: int,
                           r: int, rHost: int, n: int)
    requires su.Valid() && CredentialOf(su, cred) && cred.d == su.Mul(cred.b, sk)
    requires Residue(sk, su.q) && Residue(third, su.q) && Residue(r, su.q) && Residue(rHost, su.q) && Residue(n, su.q)
    ensures var base, rSum := su.hashToG1(bsn), su.Sum(r, rHost);
            var g := NymSignature(su, message, cred, sk, base, third, r, rHost, n);
            && (third == su.Mul(base, r) ==> g == HonestSignature(su, message, cred, sk, Some(bsn), rSum, n))
            && (third != su.Mul(base, r) ==> su.Sum(third, su.Mul(base, rHost)) != su.Mul(base, rSum))
            && (ChallengeMatches(su, g, Some(bsn), message) <==>
                  g.c == Challenge(su, su.Mul(cred.b, rSum), cred.b, cred.d, message,
                                   Some(Nym(su.Mul(base, rSum), su.Mul(base, sk), base)), n))
  {
    var base, rSum := su.hashToG1(bsn), su.Sum(r, rHost);
    var g := NymSignature(su, message, cred, sk, base, third, r, rHost, n);
    TimesPlus(base, r, rHost, su.q);
    MinusUndoes(third, su.Mul(base, rHost), su.q);
    MinusUndoes(su.Mul(base, r), su.Mul(base, rHost), su.q);
    SchnorrRecomputes(cred.b, sk, rSum, g.c, su.q);
    SchnorrRecomputes(base, sk, rSum, g.c, su.q);
  }

  // ----- sign_split_ext over the card, with a basename and perhaps a token -----

  const SW_UNKNOWN: nat := 0x6F00

  /** sw_to_error of the card transport. */
  function SwToError(sw: nat): SmartCardError {
    if sw == CardSpec.SW_BASENAME_USED then BloomFilterHit
    else if sw == CardSpec.SW_SWAP_AUTH_FAILED then SwapAuthFailed
    else if sw == CardSpec.SW_NO_SWAP_KEY then NoSwapKey
    else Other(sw)
  }

  datatype SplitOutcome = Failed(error: SmartCardError) | Signed(signature: Signature)

  /** The host's second half: its challenge on decoded commitments, the card's answer, the sum. */
  function HostFinishes(su: Suite, env: CardSpec.CardEnv, open: CardSpec.CardState, u: int, k: int, kU: int,
                        hostSk: int, message: Bytes, cred: Credential, base: int, rHost: int, n: int): SplitOutcome
    requires su.q > 0 && env.Valid() && open.key.Some?
  {
    var nym := Nym(su.Sum(kU, su.Mul(base, rHost)), su.Sum(k, su.Mul(base, hostSk)), base);
    var c := Challenge(su, su.Sum(u, su.Mul(cred.b, rHost)), cred.b, cred.d, message, Some(nym), n);
    match CardSpec.RespondStep(env, open, CardSpec.Sign, su.encScalar(c)).reply
    case Ok(data) => (
      match DeserializeScalar(su, data)
      case Some(s) => Signed(Signature(c, su.Sum(s, su.Sum(rHost, su.Mul(c, hostSk))), cred, n, Some(nym.k)))
      case None => Failed(Other(0)))
    case _ => Failed(Other(0))
  }

  /** The data of the commit for a basename, and for a token that stands in for the filter. */
  function CommitData(su: Suite, cred: Credential, bsn: Bytes, auth: Option<SwapAuthorization>): Bytes {
    su.encG1(cred.b) + su.encG1(su.hashToG1(bsn)) + if auth.Some? then ToBytes(auth.value) else []
  }

  function CommitFor(su: Suite, env: CardSpec.CardEnv, st: CardSpec.CardState, cred: Credential, bsn: Bytes,
                     auth: Option<SwapAuthorization>, rnd: nat): CardSpec.Outcome
    requires env.Valid() && st.key.Some?
  {
    CardSpec.SignCommitStep(env, st, if auth.Some? then CardSpec.Swap else CardSpec.Basename,
                            CommitData(su, cred, bsn, auth), rnd)
  }

  /** What the host makes of the commit's reply: the status word of a refusal, that of an uncaught
      exception, a reply of another length and a point that does not decode all end the run. */
  function HostReads(su: Suite, env: CardSpec.CardEnv, committed: CardSpec.Outcome, hostSk: int, message: Bytes,
                     cred: Credential, base: int, rHost: int, n: int): SplitOutcome
    requires su.q > 0 && env.Valid() && committed.state.key.Some?
  {
    var g := su.G1Length();
    match committed.reply
    case Sw(sw) => Failed(SwToError(sw))
    case Fault(_) => Failed(Other(SW_UNKNOWN))
    case Ok(data) =>
      if |data| != 3 * g then Failed(Other(0)) else
      match (DeserializeG1(su, data[..g]), DeserializeG1(su, data[g..2 * g]), DeserializeG1(su, data[2 * g..]))
      case (Some(u), Some(k), Some(kU)) =>
        HostFinishes(su, env, committed.state, u, k, kU, hostSk, message, cred, base, rHost, n)
      case _ => Failed(Other(0))
  }

  /** sign_split_ext from the commit on, over the card's commands and with v0's card transport. v1
      does the same but reports every failure of the card as Other(0). */
  function SignOverCard(su: Suite, env: CardSpec.CardEnv, st: CardSpec.CardState, hostSk: int, message: Bytes,
                        cred: Credential, bsn: Bytes, auth: Option<SwapAuthorization>, rnd: nat, rHost: int,
                        n: int): SplitOutcome
    requires su.q > 0 && env.Valid() && st.key.Some?
  {
    HostReads(su, env, CommitFor(su, env, st, cred, bsn, auth, rnd), hostSk, message, cred, su.hashToG1(bsn), rHost, n)
  }

  /** Both versions decode nothing but encodings. */
  ghost predicate DecodesOnlyEncodings(su: Suite) {
    forall d {:trigger su.decG1(d)} :: |d| == su.G1Length() && su.decG1(d).Some? ==> su.encG1(su.decG1(d).value) == d
  }

  /** The filter lets the basename point pass. */
  predicate FilterPasses(su: Suite, env: CardSpec.CardEnv, st: CardSpec.CardState, bsn: Bytes)
    requires env.Valid()
  {
    !(BloomFilter.Positions(env.sha256(su.encG1(su.hashToG1(bsn)))) <= st.bloom)
  }

  /** The filter lets the basename point pass, or the card's check accepts the token given for it. */
  predicate Passes(su: Suite, env: CardSpec.CardEnv, st: CardSpec.CardState, bsn: Bytes,
                   auth: Option<SwapAuthorization>)
    requires env.Valid()
  {
    match auth
    case None => FilterPasses(su, env, st, bsn)
    case Some(token) =>
      && |ToBytes(token)| == CardSpec.SWAP_AUTH_BYTES && st.swapKey.Some?
      && CardSpec.SchnorrAuth(env, su.version, st.swapKey.value, su.encG1(su.hashToG1(bsn)), ToBytes(token))
         == Some(true)
  }

  /** What the card answers in third place, None when it throws. */
  function ThirdOutput(su: Suite, env: CardSpec.CardEnv, bsn: Bytes, cardSk: int, r: nat): Option<Bytes>
    requires su.Valid()
  {
    var base := su.hashToG1(bsn);
    env.mul(su.version, CardSpec.Overlaid(su.encG1(su.Mul(base, cardSk)), su.encG1(base)), r)
  }

  lemma CommitFields(su: Suite, cred: Credential, bsn: Bytes, auth: Option<SwapAuthorization>)
    requires su.Valid() && CredentialOf(su, cred)
    ensures var data, g := CommitData(su, cred, bsn, auth), su.G1Length();
            && |data| == 2 * g + (if auth.Some? then |ToBytes(auth.value)| else 0)
            && data[..g] == su.encG1(cred.b) && data[g..2 * g] == su.encG1(su.hashToG1(bsn))
            && data[2 * g..] == (if auth.Some? then ToBytes(auth.value) else [])
            && (auth.None? ==> data[g..] == su.encG1(su.hashToG1(bsn)))
  {
  }

  lemma ThreeFields(su: Suite, a: Bytes, b: Bytes, c: Bytes)
    requires |a| == |b| == |c| == su.G1Length()
    ensures var s, g := a + b + c, su.G1Length();
            |s| == 3 * g && s[..g] == a && s[g..2 * g] == b && s[2 * g..] == c
  {
  }

  lemma PassesRefusal(su: Suite, env: CardSpec.CardEnv, st: CardSpec.CardState, cred: Credential, bsn: Bytes,
                      auth: Option<SwapAuthorization>)
    requires su.Valid() && env.Valid() && CredentialOf(su, cred) && st.key.Some? && st.key.value.version == su.version
    requires Passes(su, env, st, bsn, auth)
    ensures CardSpec.CommitRefusal(env, st, if auth.Some? then CardSpec.Swap else CardSpec.Basename,
                                   CommitData(su, cred, bsn, auth)).None?
  {
    CommitFields(su, cred, bsn, auth);
  }

  /** The card's commit with a basename that is let through. */
  lemma BasenameCommit(su: Suite, env: CardSpec.CardEnv, st: CardSpec.CardState, cardSk: int,
                       cred: Credential, bsn: Bytes, auth: Option<SwapAuthorization>, rnd: nat)
    requires CardOf(su, env, st, cardSk) && CredentialOf(su, cred) && Passes(su, env, st, bsn, auth)
    ensures var base, r := su.hashToG1(bsn), rnd % su.q;
            var out, third := CommitFor(su, env, st, cred, bsn, auth, rnd), ThirdOutput(su, env, bsn, cardSk, r);
            && out.state.key == st.key && out.state.session == CardSpec.Open(CardSpec.Sign, r)
            && out.reply == if third.None? then CardSpec.Fault(true)
                            else CardSpec.Ok(su.encG1(su.Mul(cred.b, r)) + su.encG1(su.Mul(base, cardSk)) + third.value)
  {
    PassesRefusal(su, env, st, cred, bsn, auth);
    CommitFields(su, cred, bsn, auth);
    BasenameCommitMatches(su, env, st, cardSk, cred.b, su.hashToG1(bsn), rnd);
  }

  /** A basename the filter covers ends the run before a nonce is drawn. */
  lemma CardRefusesBasename(su: Suite, env: CardSpec.CardEnv, st: CardSpec.CardState, cardSk: int, hostSk: int,
                            message: Bytes, cred: Credential, bsn: Bytes, rnd: nat, rHost: int, n: int)
    requires CardOf(su, env, st, cardSk) && CredentialOf(su, cred) && !FilterPasses(su, env, st, bsn)
    ensures SignOverCard(su, env, st, hostSk, message, cred, bsn, None, rnd, rHost, n) == Failed(BloomFilterHit)
    ensures CommitFor(su, env, st, cred, bsn, None, rnd).state == st.(personalized := true)
  {
    CommitFields(su, cred, bsn, None);
  }

  lemma SwapRefusal(su: Suite, env: CardSpec.CardEnv, st: CardSpec.CardState, cred: Credential, bsn: Bytes,
                    token: SwapAuthorization)
    requires su.Valid() && env.Valid() && CredentialOf(su, cred) && st.key.Some? && st.key.value.version == su.version
    requires !Passes(su, env, st, bsn, Some(token))
    ensures CardSpec.CommitRefusal(env, st, CardSpec.Swap, CommitData(su, cred, bsn, Some(token)))
         == Some(if |ToBytes(token)| != CardSpec.SWAP_AUTH_BYTES then CardSpec.Sw(CardSpec.SW_WRONG_LENGTH)
                 else if st.swapKey.None? then CardSpec.Sw(CardSpec.SW_NO_SWAP_KEY)
                 else if CardSpec.SchnorrAuth(env, su.version, st.swapKey.value, su.encG1(su.hashToG1(bsn)),
                                              ToBytes(token)).None? then CardSpec.Fault(false)
                 else CardSpec.Sw(CardSpec.SW_SWAP_AUTH_FAILED))
  {
    CommitFields(su, cred, bsn, Some(token));
  }

  /** So does a token the card does not accept, with an error of its own for each reason. */
  lemma CardRefusesToken(su: Suite, env: CardSpec.CardEnv, st: CardSpec.CardState, cardSk: int, hostSk: int,
                         message: Bytes, cred: Credential, bsn: Bytes, token: SwapAuthorization, rnd: nat,
                         rHost: int, n: int)
    requires CardOf(su, env, st, cardSk) && CredentialOf(su, cred) && !Passes(su, env, st, bsn, Some(token))
    ensures CommitFor(su, env, st, cred, bsn, Some(token), rnd).state == st.(personalized := true)
    ensures SignOverCard(su, env, st, hostSk, message, cred, bsn, Some(token), rnd, rHost, n)
         == Failed(if |ToBytes(token)| != CardSpec.SWAP_AUTH_BYTES then Other(CardSpec.SW_WRONG_LENGTH)
                   else if st.swapKey.None? then NoSwapKey
                   else if CardSpec.SchnorrAuth(env, su.version, st.swapKey.value, su.encG1(su.hashToG1(bsn)),
                                                ToBytes(token)).None? then Other(SW_UNKNOWN)
                   else SwapAuthFailed)
  {
    SwapRefusal(su, env, st, cred, bsn, token);
  }

  lemma FinishMatches(su: Suite, env: CardSpec.CardEnv, open: CardSpec.CardState, cardSk: int, hostSk: int,
                      message: Bytes, cred: Credential, base: int, third: int, r: int, rHost: int, n: int)
    requires CardOf(su, env, open, cardSk) && CredentialOf(su, cred) && Residue(base, su.q) && Residue(third, su.q)
    requires Residue(hostSk, su.q) && Residue(r, su.q) && Residue(rHost, su.q) && Residue(n, su.q)
    requires open.session == CardSpec.Open(CardSpec.Sign, r)
    ensures HostFinishes(su, env, open, su.Mul(cred.b, r), su.Mul(base, cardSk), third, hostSk, message, cred,
                         base, rHost, n)
         == Signed(NymSignature(su, message, cred, su.Sum(cardSk, hostSk), base, third, r, rHost, n))
  {
    TimesPlus(cred.b, r, rHost, su.q);
    TimesPlus(base, cardSk, hostSk, su.q);
    var c := NymSignature(su, message, cred, su.Sum(cardSk, hostSk), base, third, r, rHost, n).c;
    ResponseMatches(su, env, cardSk, r, c);
    SecretDecodes(su, su.Sum(r, su.Mul(c, cardSk)));
    SchnorrShares(r, rHost, c, cardSk, hostSk, su.q);
  }

  /** A reply of three fields of which the first two decode. */
  lemma ThreeOutputs(su: Suite, env: CardSpec.CardEnv, committed: CardSpec.Outcome, u: int, k: int, third: Bytes,
                     hostSk: int, message: Bytes, cred: Credential, base: int, rHost: int, n: int)
    requires su.Valid() && env.Valid() && committed.state.key.Some? && |third| == su.G1Length()
    requires Residue(u, su.q) && Residue(k, su.q)
    requires committed.reply == CardSpec.Ok(su.encG1(u) + su.encG1(k) + third)
    ensures HostReads(su, env, committed, hostSk, message, cred, base, rHost, n)
         == match su.decG1(third)
            case None => Failed(Other(0))
            case Some(v) => HostFinishes(su, env, committed.state, u, k, v, hostSk, message, cred, base, rHost, n)
  {
    ThreeFields(su, su.encG1(u), su.encG1(k), third);
    PointDecodes(su, u);
    PointDecodes(su, k);
    assert third[0..su.G1Length()] == third;
  }

  /** The whole run is decided by the third output: the card throws, or the host cannot decode it
      and gives up, or it is the encoding of some element and the signature is assembled with that. */
  lemma CardSignsWithBasename(su: Suite, env: CardSpec.CardEnv, st: CardSpec.CardState, cardSk: int, hostSk: int,
                              message: Bytes, cred: Credential, bsn: Bytes, auth: Option<SwapAuthorization>,
                              rnd: nat, rHost: int, n: int)
    requires CardOf(su, env, st, cardSk) && CredentialOf(su, cred) && Passes(su, env, st, bsn, auth)
    requires Residue(hostSk, su.q) && Residue(rHost, su.q) && Residue(n, su.q) && DecodesOnlyEncodings(su)
    ensures var base, r := su.hashToG1(bsn), rnd % su.q;
            var third := ThirdOutput(su, env, bsn, cardSk, r);
            SignOverCard(su, env, st, hostSk, message, cred, bsn, auth, rnd, rHost, n)
              == if third.None? then Failed(Other(SW_UNKNOWN))
                 else match su.decG1(third.value)
                      case None => Failed(Other(0))
                      case Some(v) =>
                        Signed(NymSignature(su, message, cred, su.Sum(cardSk, hostSk), base, v, r, rHost, n))
    ensures var third := ThirdOutput(su, env, bsn, cardSk, rnd % su.q);
            third.Some? && su.decG1(third.value).Some? ==> third.value == su.encG1(su.decG1(third.value).value)
  {
    var base, r := su.hashToG1(bsn), rnd % su.q;
    var third := ThirdOutput(su, env, bsn, cardSk, r);
    BasenameCommit(su, env, st, cardSk, cred, bsn, auth, rnd);
    if third.Some? {
      var committed := CommitFor(su, env, st, cred, bsn, auth, rnd);
      ThreeOutputs(su, env, committed, su.Mul(cred.b, r), su.Mul(base, cardSk), third.value, hostSk, message, cred,
                   base, rHost, n);
      if su.decG1(third.value).Some? {
        FinishMatches(su, env, committed.state, cardSk, hostSk, message, cred, base, su.decG1(third.value).value, r,
                      rHost, n);
      }
    }
  }

  /** The blind join: PUBLIC_KEY_SHARE and JOIN_COMMIT, the host's challenge, JOIN_RESPOND. */
  lemma CardJoins(su: Suite, env: CardSpec.CardEnv, st: CardSpec.CardState, nonce: Bytes, cardSk: int,
                  rnd: nat, hostSk: int, rHost: int, n: int)
    requires CardOf(su, env, st, cardSk) && nonce != []
    requires Residue(hostSk, su.q) && Residue(rHost, su.q) && Residue(n, su.q)
    ensures var base := SplitBasePoint(su, nonce);
            var qCard := Data(CardSpec.PublicKeyShareStep(env, st, base).reply);
            var committed := CardSpec.JoinCommitStep(env, st, base, rnd);
            var host := HostCommitAndChallenge(su, nonce, qCard, Data(committed.reply), hostSk, rHost);
            && host.Some?
            && var answered := CardSpec.RespondStep(env, committed.state, CardSpec.Join, host.value.c);
               && answered.reply.Ok?
               && JoinFinalize(su, nonce, qCard, host.value.hostSk, host.value.hostR, host.value.c,
                               answered.reply.data, n)
                  == Some(GenerateWalletKeypair(su, nonce, su.Sum(cardSk, hostSk), su.Sum(rnd % su.q, rHost),
                                                n).value.publicKey)
  {
    var b, r := su.hashToG1(nonce), rnd % su.q;
    JoinMatches(su, env, st, cardSk, b, rnd, 0);
    StagedJoin(su, nonce, cardSk, r, hostSk, rHost, n);
    var host := HostCommitAndChallenge(su, nonce, su.encG1(su.Mul(b, cardSk)), su.encG1(su.Mul(b, r)), hostSk,
                                       rHost).value;
    var c := HostChallenge(su, nonce, su.encG1(su.Mul(b, cardSk)), su.encG1(su.Mul(b, r)), hostSk, rHost);
    SecretDecodes(su, c);
    JoinMatches(su, env, st, cardSk, b, rnd, c);
  }

  /** The challenge a host commit encodes. */
  function HostChallenge(su: Suite, nonce: Bytes, qCard: Bytes, uCard: Bytes, hostSk: int, rHost: int): (c: int)
    requires su.Valid() && HostCommitAndChallenge(su, nonce, qCard, uCard, hostSk, rHost).Some?
    ensures Residue(c, su.q)
    ensures HostCommitAndChallenge(su, nonce, qCard, uCard, hostSk, rHost).value.c == su.encScalar(c)
  {
    var b := su.hashToG1(nonce);
    var k := su.Sum(DeserializeG1(su, qCard).value, su.Mul(b, hostSk));
    MemberHash(su, su.Sum(DeserializeG1(su, uCard).value, su.Mul(b, rHost)), b, k, nonce)
  }
}
