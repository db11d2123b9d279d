/** Safety of the card over every run: any sequence of commands and deselects from installation,
    any random draws, any arithmetic and hash. */
module CardRuns {
  import opened Options
  import opened Versions
  import opened Bytes
  import opened Modular
  import BloomFilter
  import opened CardSpec

  /** What holds of the card's state in every run. */
  ghost predicate Inv(env: CardEnv, st: CardState) {
    && (st.resetKey.Some? || st.swapKey.Some? || st.personalized || st.session.Open? ==> st.key.Some?)
    && (st.session.Open? ==> st.personalized)
    && (st.key.Some? ==> st.key.value.sk < env.order(st.key.value.version))
    && (st.session.Open? ==> st.session.r < env.order(st.key.value.version))
    && (st.swapKey.Some? ==> |st.swapKey.value| == G1Bytes(st.key.value.version))
    && (st.resetKey.Some? ==> |st.resetKey.value| == G1Bytes(st.key.value.version))
    && (forall p :: p in st.bloom ==> p < BloomFilter.NUM_BITS)
    && 0 <= st.epoch < 0x8000_0000
    && (st.mfrCert.Some? ==> 1 <= |st.mfrCert.value| <= MAX_DER_BYTES)
  }

  predicate IsCommit(ev: Event) {
    ev.Apdu? && ev.ins in {0x10, 0x11, 0x13, 0x20}
  }

  predicate IsRespond(ev: Event) {
    ev.Apdu? && ev.ins in {0x12, 0x21}
  }

  function KindOf(ev: Event): SessionKind
    requires ev.Apdu?
  {
    if ev.ins in {0x20, 0x21} then Join else Sign
  }

  /** The command drew a nonce and opened a session with it. */
  predicate Opened(ev: Event, reply: Reply) {
    IsCommit(ev) && (reply.Ok? || (reply.Fault? && reply.drawn))
  }

  predicate Answered(ev: Event, reply: Reply) {
    IsRespond(ev) && reply.Ok?
  }

  function DrawnNonce(env: CardEnv, st: CardState, ev: Event): nat
    requires env.Valid() && ev.Apdu?
  {
    if st.key.Some? then ev.rnd % env.order(st.key.value.version) else 0
  }

  /** A basename commit that the filter let through. */
  predicate Passed(ev: Event, reply: Reply) {
    ev.Apdu? && ev.ins == 0x11 && !reply.Sw?
  }

  predicate Reset(ev: Event, reply: Reply) {
    ev.Apdu? && ev.ins == 0x30 && reply.Ok?
  }

  /** The invariant is kept; an error status leaves the state alone but for the personalized
      mark of a commit; what is fixed stays fixed. */
  ghost predicate Conservative(env: CardEnv, st: CardState, ev: Event, out: Outcome) {
    var st' := out.state;
    && Inv(env, st')
    && (out.reply.Sw? ==> st' == st.(personalized := st'.personalized))
    && (st'.personalized == st.personalized || IsCommit(ev))
    && (st.key.Some? ==> st'.key == st.key)
    && (st.personalized ==> st'.personalized && st'.swapKey == st.swapKey && st'.resetKey == st.resetKey
                            && st'.mfrCert == st.mfrCert)
    && (st.mfrKeyGenerated ==> st'.mfrKeyGenerated)
  }

  /** How the session, the filter and the epoch move. */
  ghost predicate Moves(env: CardEnv, st: CardState, ev: Event, out: Outcome)
    requires env.Valid()
  {
    var st' := out.state;
    && (Opened(ev, out.reply) ==> st.key.Some? && st'.session == Open(KindOf(ev), DrawnNonce(env, st, ev)))
    && (Answered(ev, out.reply) || ev == Deselect ==> st'.session == NoSession)
    && (!Opened(ev, out.reply) && !Answered(ev, out.reply) && ev != Deselect ==> st'.session == st.session)
    && (if Reset(ev, out.reply) then st'.bloom == {} && st'.epoch > st.epoch else st'.epoch == st.epoch)
    && (!Reset(ev, out.reply) && !Passed(ev, out.reply) ==> st'.bloom == st.bloom)
  }

  ghost predicate Legal(env: CardEnv, st: CardState, ev: Event, out: Outcome)
    requires env.Valid()
  {
    Conservative(env, st, ev, out) && Moves(env, st, ev, out)
  }

  /** A commit that was let through: only the filter and the session change. */
  lemma DrawnLegal(env: CardEnv, st: CardState, ev: Event, bloom: set<nat>, out: Option<Bytes>)
    requires env.Valid() && Inv(env, st) && st.key.Some? && IsCommit(ev)
    requires bloom == st.bloom || (ev.ins == 0x11 && bloom == st.bloom + BasenameBits(env, st, ev))
    ensures var st1 := st.(personalized := true, bloom := bloom);
            Legal(env, st, ev, DrawnFor(st1, KindOf(ev), DrawnNonce(env, st, ev), out))
  {
    var st' := DrawnFor(st.(personalized := true, bloom := bloom), KindOf(ev), DrawnNonce(env, st, ev), out).state;
    assert Inv(env, st');
  }

  lemma RefusalLegal(env: CardEnv, st: CardState, ev: Event, refusal: Reply)
    requires env.Valid() && Inv(env, st) && st.key.Some? && IsCommit(ev) && (refusal.Sw? || refusal == Fault(false))
    requires ev.ins == 0x11 ==> refusal.Sw?
    ensures Legal(env, st, ev, Outcome(st.(personalized := true), refusal))
  {
    assert Inv(env, st.(personalized := true));
  }

  lemma RefusalKinds(env: CardEnv, st: CardState, mode: CommitMode, data: Bytes)
    requires env.Valid() && st.key.Some? && CommitRefusal(env, st, mode, data).Some?
    ensures var refusal := CommitRefusal(env, st, mode, data).value;
            refusal.Sw? || (mode == Swap && refusal == Fault(false))
  {
  }

  lemma SignCommitLegal(env: CardEnv, st: CardState, mode: CommitMode, ev: Event)
    requires env.Valid() && Inv(env, st) && st.key.Some? && ev.Apdu? && ev.ins in {0x10, 0x11, 0x13}
    requires mode == Basename <==> ev.ins == 0x11
    ensures Legal(env, st, ev, SignCommitStep(env, st, mode, ev.data, ev.rnd))
  {
    var refusal := CommitRefusal(env, st, mode, ev.data);
    if refusal.Some? {
      RefusalKinds(env, st, mode, ev.data);
      RefusalLegal(env, st, ev, refusal.value);
    } else {
      var g := G1Bytes(st.key.value.version);
      DrawnLegal(env, st, ev, Entered(env, st, mode, ev.data).bloom,
                 CommitBytes(env, st.key.value, ev.data[..g],
                             if mode.Plain? then None else Some(ev.data[g..2 * g]), DrawnNonce(env, st, ev)));
    }
  }

  lemma ResetLegal(env: CardEnv, st: CardState, ev: Event)
    requires env.Valid() && Inv(env, st) && ev.Apdu? && ev.ins == 0x30
    ensures Legal(env, st, ev, ResetStep(env, st, ev.data))
  {
    if |ev.data| >= 4 { SignedBound(ev.data[..4]); }
  }

  lemma SignedBound(b: Bytes)
    requires |b| == 4
    ensures SignedInt(b) < 0x8000_0000
  {
    ToFromBE(b);
    assert Pow(256, 4) == 0x1_0000_0000;
  }

  lemma JoinCommitLegal(env: CardEnv, st: CardState, ev: Event)
    requires env.Valid() && Inv(env, st) && st.key.Some? && ev.Apdu? && ev.ins == 0x20
    ensures Legal(env, st, ev, JoinCommitStep(env, st, ev.data, ev.rnd))
  {
    DrawnLegal(env, st, ev, st.bloom, env.mul(st.key.value.version, ev.data, DrawnNonce(env, st, ev)));
  }

  lemma RespondLegal(env: CardEnv, st: CardState, ev: Event)
    requires env.Valid() && Inv(env, st) && st.key.Some? && IsRespond(ev)
    ensures Legal(env, st, ev, RespondStep(env, st, KindOf(ev), ev.data))
  {
  }

  lemma ConfigurationLegal(env: CardEnv, st: CardState, ev: Event, swap: bool)
    requires env.Valid() && Inv(env, st) && ev.Apdu? && !IsCommit(ev) && !IsRespond(ev) && ev.ins != 0x30
    ensures st.key.Some? ==> Legal(env, st, ev, PublicKeyShareStep(env, st, ev.data))
    ensures st.key.Some? ==> Legal(env, st, ev, SetKeyStep(st, swap, ev.data))
    ensures Legal(env, st, ev, StatusStep(st))
  {
  }

  lemma ProvisioningLegal(env: CardEnv, st: CardState, ev: Event)
    requires env.Valid() && Inv(env, st) && ev.Apdu? && !IsCommit(ev) && !IsRespond(ev) && ev.ins != 0x30
    ensures Legal(env, st, ev, MfrStep(env, st, ev.ins, ev.data))
  {
  }

  lemma KeyLegal(env: CardEnv, st: CardState, ev: Event, v: Version)
    requires env.Valid() && Inv(env, st) && ev.Apdu? && !IsCommit(ev) && !IsRespond(ev) && ev.ins != 0x30
    ensures Legal(env, st, ev, GenerateKeyStep(env, st, v, ev.rnd))
  {
    assert 0 < env.order(v);
  }

  lemma HandleLegal(env: CardEnv, st: CardState, ev: Event)
    requires env.Valid() && Inv(env, st) && ev.Apdu? && VersionRefusal(st, ev.ins, ev.p1).None?
    ensures Legal(env, st, ev, Handle(env, st, ev))
  {
    if ev.ins in {0x10, 0x11, 0x13} {
      SignCommitLegal(env, st, if ev.ins == 0x10 then Plain else if ev.ins == 0x11 then Basename else Swap, ev);
    } else if ev.ins == 0x30 {
      ResetLegal(env, st, ev);
    } else if IsCommit(ev) {
      JoinCommitLegal(env, st, ev);
    } else if IsRespond(ev) {
      RespondLegal(env, st, ev);
    } else {
      ProvisioningLegal(env, st, ev);
      KeyLegal(env, st, ev, if ev.p1 == 0 then BN254 else BLS381);
      ConfigurationLegal(env, st, ev, ev.ins == 0x31);
    }
  }

  lemma StepLegal(env: CardEnv, st: CardState, ev: Event)
    requires env.Valid() && Inv(env, st)
    ensures Legal(env, st, ev, Step(env, st, ev))
  {
    if ev.Apdu? && ev.cla == 0x80 && VersionRefusal(st, ev.ins, ev.p1).None? {
      HandleLegal(env, st, ev);
    }
  }

  // ----- Runs -----

  /** A run: events, the states around them and the replies to them. */
  datatype Run = Run(evs: seq<Event>, states: seq<CardState>, replies: seq<Reply>)

  ghost predicate StepAt(env: CardEnv, run: Run, n: nat)
    requires env.Valid() && n < |run.evs| && |run.states| == |run.evs| + 1 && |run.replies| == |run.evs|
  {
    var st := run.states[n];
    Sane(st) && Outcome(run.states[n + 1], run.replies[n]) == Step(env, st, run.evs[n])
  }

  /** run starts at installation and every step is the card's. */
  ghost predicate IsRun(env: CardEnv, run: Run) {
    && env.Valid()
    && |run.states| == |run.evs| + 1 && |run.replies| == |run.evs|
    && run.states[0] == INSTALLED
    && forall n {:trigger StepAt(env, run, n)} :: 0 <= n < |run.evs| ==> StepAt(env, run, n)
  }

  lemma {:induction false} RunInv(env: CardEnv, run: Run, n: nat)
    requires IsRun(env, run) && n <= |run.evs|
    ensures Inv(env, run.states[n])
  {
    if n > 0 {
      RunInv(env, run, n - 1);
      assert StepAt(env, run, n - 1);
      StepLegal(env, run.states[n - 1], run.evs[n - 1]);
    }
  }

  lemma RunLegal(env: CardEnv, run: Run, n: nat)
    requires IsRun(env, run) && n < |run.evs|
    ensures Inv(env, run.states[n])
    ensures Legal(env, run.states[n], run.evs[n], Outcome(run.states[n + 1], run.replies[n]))
    ensures Outcome(run.states[n + 1], run.replies[n]) == Step(env, run.states[n], run.evs[n])
  {
    RunInv(env, run, n);
    assert StepAt(env, run, n);
    StepLegal(env, run.states[n], run.evs[n]);
  }

  /** Every sequence of events has a run: the card never gets stuck. */
  lemma {:induction false} RunExists(env: CardEnv, evs: seq<Event>) returns (run: Run)
    requires env.Valid()
    ensures IsRun(env, run) && run.evs == evs
  {
    if evs == [] {
      run := Run([], [INSTALLED], []);
    } else {
      var m := |evs| - 1;
      var r := RunExists(env, evs[..m]);
      RunInv(env, r, m);
      var out := Step(env, r.states[m], evs[m]);
      run := Run(evs, r.states + [out.state], r.replies + [out.reply]);
      forall n: nat | n < |evs| ensures StepAt(env, run, n) {
        if n < m { assert StepAt(env, r, n); }
      }
    }
  }

  // ----- Commands that fail, and what is fixed for life -----

  /** A command answered with an error status changes nothing, except that a refused commit
      already marks the card as personalized; an open session in particular survives. */
  lemma RefusalKeepsState(env: CardEnv, run: Run, n: nat)
    requires IsRun(env, run) && n < |run.evs| && run.replies[n].Sw?
    ensures var st, st' := run.states[n], run.states[n + 1];
            && st' == st.(personalized := st'.personalized)
            && (st'.personalized == st.personalized || IsCommit(run.evs[n]))
  {
    RunLegal(env, run, n);
  }

  lemma CommitFault(env: CardEnv, st: CardState, mode: CommitMode, ev: Event)
    requires env.Valid() && Inv(env, st) && st.key.Some? && ev.Apdu? && ev.ins in {0x10, 0x11, 0x13}
    requires mode == Basename <==> ev.ins == 0x11
    requires SignCommitStep(env, st, mode, ev.data, ev.rnd).reply.Fault?
    ensures FaultShape(env, st, ev, SignCommitStep(env, st, mode, ev.data, ev.rnd))
  {
  }

  /** Before a nonce was drawn an uncaught exception is like a refusal. After, it has replaced
      whatever session was open by one on the new nonce, and a basename has entered the filter;
      nothing else has changed. */
  ghost predicate FaultShape(env: CardEnv, st: CardState, ev: Event, out: Outcome)
    requires env.Valid() && ev.Apdu? && out.reply.Fault?
  {
    var st' := out.state;
    if out.reply.drawn
    then && IsCommit(ev) && st.key.Some?
         && st' == st.(personalized := true, bloom := st'.bloom, session := Open(KindOf(ev), DrawnNonce(env, st, ev)))
         && st'.bloom == (if ev.ins == 0x11 then st.bloom + BasenameBits(env, st, ev) else st.bloom)
    else st' == st.(personalized := st'.personalized) && (st'.personalized == st.personalized || IsCommit(ev))
  }

  lemma OtherFault(env: CardEnv, st: CardState, ev: Event, out: Outcome)
    requires env.Valid() && ev.Apdu? && out.reply == Fault(false) && out.state == st
    ensures FaultShape(env, st, ev, out)
  {
  }

  lemma JoinFault(env: CardEnv, st: CardState, ev: Event)
    requires env.Valid() && st.key.Some? && ev.Apdu? && ev.ins == 0x20
    requires JoinCommitStep(env, st, ev.data, ev.rnd).reply.Fault?
    ensures FaultShape(env, st, ev, JoinCommitStep(env, st, ev.data, ev.rnd))
  {
  }

  lemma FaultStep(env: CardEnv, st: CardState, ev: Event)
    requires env.Valid() && Inv(env, st) && Step(env, st, ev).reply.Fault?
    ensures ev.Apdu? && FaultShape(env, st, ev, Step(env, st, ev))
  {
    assert Step(env, st, ev) == Handle(env, st, ev);
    if ev.ins in {0x10, 0x11, 0x13} {
      CommitFault(env, st, if ev.ins == 0x10 then Plain else if ev.ins == 0x11 then Basename else Swap, ev);
    } else if ev.ins == 0x20 {
      JoinFault(env, st, ev);
    } else {
      OtherFault(env, st, ev, Step(env, st, ev));
    }
  }

  lemma FaultEffects(env: CardEnv, run: Run, n: nat)
    requires IsRun(env, run) && n < |run.evs| && run.replies[n].Fault?
    ensures run.evs[n].Apdu?
    ensures FaultShape(env, run.states[n], run.evs[n], Outcome(run.states[n + 1], run.replies[n]))
  {
    RunLegal(env, run, n);
    FaultStep(env, run.states[n], run.evs[n]);
  }

  /** The secret share and the curve are fixed once generated; the authorisation keys and the
      manufacturer certificate are fixed once the card is personalized, which it stays. */
  lemma {:induction false} FixedForLife(env: CardEnv, run: Run, i: nat, j: nat)
    requires IsRun(env, run) && i <= j <= |run.evs|
    ensures var s, t := run.states[i], run.states[j];
            && (s.key.Some? ==> t.key == s.key)
            && (s.personalized ==> t.personalized && t.swapKey == s.swapKey && t.resetKey == s.resetKey
                                   && t.mfrCert == s.mfrCert)
            && (s.mfrKeyGenerated ==> t.mfrKeyGenerated)
  {
    if i < j {
      FixedForLife(env, run, i, j - 1);
      RunLegal(env, run, j - 1);
    }
  }

  // ----- One answer per nonce -----

  predicate Opens(run: Run, n: nat)
    requires n < |run.evs| && |run.replies| == |run.evs|
  {
    Opened(run.evs[n], run.replies[n])
  }

  predicate Answers(run: Run, n: nat)
    requires n < |run.evs| && |run.replies| == |run.evs|
  {
    Answered(run.evs[n], run.replies[n])
  }

  /** No event in [lo, hi) opens, answers or clears a session. */
  ghost predicate Quiet(run: Run, lo: nat, hi: nat)
    requires hi <= |run.evs| && |run.replies| == |run.evs|
  {
    forall k :: lo <= k < hi ==> !Opens(run, k) && !Answers(run, k) && run.evs[k] != Deselect
  }

  /** The event whose nonce is open before event n. */
  function Origin(run: Run, n: nat): (o: Option<nat>)
    requires n <= |run.evs| && |run.replies| == |run.evs|
    ensures o.Some? ==> o.value < n && Opens(run, o.value) && Quiet(run, o.value + 1, n)
  {
    if n == 0 then None
    else if Opens(run, n - 1) then Some(n - 1)
    else if Answers(run, n - 1) || run.evs[n - 1] == Deselect then None
    else Origin(run, n - 1)
  }

  lemma {:induction false} SessionHasOrigin(env: CardEnv, run: Run, n: nat)
    requires IsRun(env, run) && n <= |run.evs|
    ensures var o := Origin(run, n);
            run.states[n].session
              == if o.None? then NoSession
                 else Open(KindOf(run.evs[o.value]), DrawnNonce(env, run.states[o.value], run.evs[o.value]))
  {
    if n > 0 {
      SessionHasOrigin(env, run, n - 1);
      RunLegal(env, run, n - 1);
    }
  }

  /** Every response answers the latest opened session, of its own kind, with no other commit,
      response or deselect in between, and is r + c*sk for that session's nonce and the card's
      one secret share. */
  lemma ResponseBelongs(env: CardEnv, run: Run, j: nat)
    requires IsRun(env, run) && j < |run.evs| && Answers(run, j)
    ensures var o, ev := Origin(run, j), run.evs[j];
            && o.Some? && KindOf(run.evs[o.value]) == KindOf(ev)
            && run.states[j].key.Some? && run.states[o.value].key == run.states[j].key
            && |ev.data| == FR_BYTES
            && var k, r := run.states[j].key.value, DrawnNonce(env, run.states[o.value], run.evs[o.value]);
            run.replies[j] == Ok(ToBE(Response(r, FromBE(ev.data), k.sk, env.order(k.version)), FR_BYTES))
  {
    SessionHasOrigin(env, run, j);
    RunLegal(env, run, j);
    AnswerNeedsSession(env, run.states[j], run.evs[j]);
    var o := Origin(run, j).value;
    RunLegal(env, run, o);
    FixedForLife(env, run, o, j);
  }

  lemma AnswerNeedsSession(env: CardEnv, st: CardState, ev: Event)
    requires env.Valid() && Inv(env, st) && Answered(ev, Step(env, st, ev).reply)
    ensures st.key.Some? && st.session.Open? && st.session.kind == KindOf(ev) && |ev.data| == FR_BYTES
    ensures Step(env, st, ev).reply == Ok(ToBE(Response(st.session.r, FromBE(ev.data), st.key.value.sk,
                                                        env.order(st.key.value.version)), FR_BYTES))
  {
  }

  /** No nonce is answered twice: two responses stem from different commits, in order. */
  lemma OneAnswerPerNonce(env: CardEnv, run: Run, i: nat, j: nat)
    requires IsRun(env, run) && i < j < |run.evs| && Answers(run, i) && Answers(run, j)
    ensures Origin(run, i).Some? && Origin(run, j).Some?
    ensures Origin(run, i).value < i < Origin(run, j).value < j
  {
    ResponseBelongs(env, run, i);
    ResponseBelongs(env, run, j);
  }

  // ----- The filter -----

  predicate Passes(run: Run, n: nat)
    requires n < |run.evs| && |run.replies| == |run.evs|
  {
    Passed(run.evs[n], run.replies[n])
  }

  predicate Resets(run: Run, n: nat)
    requires n < |run.evs| && |run.replies| == |run.evs|
  {
    Reset(run.evs[n], run.replies[n])
  }

  /** The basename bytes of a commit: everything after the first point. */
  function BasenameOf(st: CardState, ev: Event): Bytes
    requires ev.Apdu?
  {
    if st.key.Some? && |ev.data| >= G1Bytes(st.key.value.version)
    then ev.data[G1Bytes(st.key.value.version)..] else []
  }

  function BasenameBits(env: CardEnv, st: CardState, ev: Event): set<nat>
    requires env.Valid() && ev.Apdu?
  {
    BloomFilter.Positions(env.sha256(BasenameOf(st, ev)))
  }

  lemma PassFacts(env: CardEnv, st: CardState, ev: Event)
    requires env.Valid() && Inv(env, st) && Passed(ev, Step(env, st, ev).reply)
    ensures st.key.Some? && |ev.data| == 2 * G1Bytes(st.key.value.version)
    ensures !(BasenameBits(env, st, ev) <= st.bloom)
    ensures Step(env, st, ev).state.bloom == st.bloom + BasenameBits(env, st, ev)
  {
  }

  ghost predicate AllPass(run: Run, s: seq<nat>, n: nat)
    requires n <= |run.evs| && |run.replies| == |run.evs|
  {
    forall i :: 0 <= i < |s| ==> s[i] < n && Passes(run, s[i])
  }

  /** The events that passed the filter since the last successful reset before n. */
  function PassedSince(run: Run, n: nat): (s: seq<nat>)
    requires n <= |run.evs| && |run.replies| == |run.evs|
    ensures AllPass(run, s, n)
  {
    if n == 0 || Resets(run, n - 1) then []
    else if Passes(run, n - 1) then PassedSince(run, n - 1) + [n - 1]
    else PassedSince(run, n - 1)
  }

  ghost function UnionOfBits(env: CardEnv, run: Run, s: seq<nat>): set<nat>
    requires IsRun(env, run) && AllPass(run, s, |run.evs|)
  {
    if s == [] then {} else
      UnionOfBits(env, run, s[..|s| - 1]) + BasenameBits(env, run.states[s[|s| - 1]], run.evs[s[|s| - 1]])
  }

  /** The filter is exactly its abstraction: its bits are the union of the positions of the
      basenames that passed since the last successful reset. */
  lemma {:induction false} FilterIsUnion(env: CardEnv, run: Run, n: nat)
    requires IsRun(env, run) && n <= |run.evs|
    ensures run.states[n].bloom == UnionOfBits(env, run, PassedSince(run, n))
  {
    if n > 0 {
      FilterIsUnion(env, run, n - 1);
      RunLegal(env, run, n - 1);
      if Passes(run, n - 1) {
        PassFacts(env, run.states[n - 1], run.evs[n - 1]);
        var s := PassedSince(run, n - 1);
        assert (s + [n - 1])[..|s|] == s;
      }
    }
  }

  /** A basename commit that is otherwise in order is refused as used exactly when its positions
      are covered by those of the basenames that passed since the last reset. */
  lemma UsedIffCovered(env: CardEnv, run: Run, n: nat)
    requires IsRun(env, run) && n < |run.evs| && run.states[n].key.Some?
    requires var v, ev := run.states[n].key.value.version, run.evs[n];
             ev.Apdu? && ev.cla == 0x80 && ev.ins == 0x11 && ev.p1 == VersionByte(v) && |ev.data| == 2 * G1Bytes(v)
    ensures var bits := BasenameBits(env, run.states[n], run.evs[n]);
            (run.replies[n] == Sw(SW_BASENAME_USED)) <==> bits <= UnionOfBits(env, run, PassedSince(run, n))
  {
    RunLegal(env, run, n);
    FilterIsUnion(env, run, n);
  }

  /** Event m let a basename into the filter, and no reset has cleared it before n. */
  ghost predicate InFilter(run: Run, m: nat, n: nat)
    requires n <= |run.evs| && |run.replies| == |run.evs|
  {
    m < n && Passes(run, m) && forall k :: m < k < n ==> !Resets(run, k)
  }

  function DigestAt(env: CardEnv, run: Run, m: nat): (d: Bytes)
    requires env.Valid() && m < |run.evs| < |run.states| && run.evs[m].Apdu?
    ensures |d| == 32
  {
    env.sha256(BasenameOf(run.states[m], run.evs[m]))
  }

  /** A bit of the filter is a word of a basename that is still in it. */
  lemma {:induction false} BitIff(env: CardEnv, run: Run, n: nat, p: nat)
    requires IsRun(env, run) && n <= |run.evs|
    ensures p in run.states[n].bloom
       <==> exists m: nat {:trigger InFilter(run, m, n)} ::
              InFilter(run, m, n) && p in BloomFilter.Positions(DigestAt(env, run, m))
  {
    if n > 0 {
      BitIff(env, run, n - 1, p);
      RunLegal(env, run, n - 1);
      forall m: nat ensures InFilter(run, m, n)
           <==> !Resets(run, n - 1) && (InFilter(run, m, n - 1) || (m == n - 1 && Passes(run, m))) {
        assert m < n - 1 && !Resets(run, n - 1) && InFilter(run, m, n - 1) ==> InFilter(run, m, n);
      }
      if Passes(run, n - 1) { PassFacts(env, run.states[n - 1], run.evs[n - 1]); }
    }
  }

  /** Some word of a basename still in the filter agrees with word i of this digest modulo 9585. */
  ghost predicate WordTaken(env: CardEnv, run: Run, n: nat, digest: Bytes, i: nat)
    requires IsRun(env, run) && n <= |run.evs| && |digest| == 32 && i < 7
  {
    exists m: nat, j: nat {:trigger InFilter(run, m, n), BloomFilter.Word(DigestAt(env, run, m), j)} ::
      InFilter(run, m, n) && j < 7
      && BloomFilter.Word(DigestAt(env, run, m), j) % 9585 == BloomFilter.Word(digest, i) % 9585
  }

  lemma WordTakenIff(env: CardEnv, run: Run, n: nat, digest: Bytes, i: nat)
    requires IsRun(env, run) && n <= |run.evs| && |digest| == 32 && i < 7
    ensures WordTaken(env, run, n, digest, i) <==> BloomFilter.Word(digest, i) % 9585 in run.states[n].bloom
  {
    var p := BloomFilter.Word(digest, i) % 9585;
    BitIff(env, run, n, p);
    forall m: nat | InFilter(run, m, n)
      ensures p in BloomFilter.Positions(DigestAt(env, run, m))
         <==> exists j :: 0 <= j < 7 && p == BloomFilter.Word(DigestAt(env, run, m), j) % 9585 {
      BloomFilter.PositionsIff(DigestAt(env, run, m), p);
    }
  }

  /** The same in terms of the digests: a commit is refused as used if and only if each of its seven
      words agrees modulo 9585 with some word of some basename accepted since the last reset. */
  lemma UsedIffWordsTaken(env: CardEnv, run: Run, n: nat)
    requires IsRun(env, run) && n < |run.evs| && run.states[n].key.Some?
    requires var v, ev := run.states[n].key.value.version, run.evs[n];
             ev.Apdu? && ev.cla == 0x80 && ev.ins == 0x11 && ev.p1 == VersionByte(v) && |ev.data| == 2 * G1Bytes(v)
    ensures (run.replies[n] == Sw(SW_BASENAME_USED))
       <==> forall i: nat {:trigger WordTaken(env, run, n, DigestAt(env, run, n), i)} ::
              i < 7 ==> WordTaken(env, run, n, DigestAt(env, run, n), i)
  {
    var digest := DigestAt(env, run, n);
    UsedIffCovered(env, run, n);
    FilterIsUnion(env, run, n);
    var bloom := run.states[n].bloom;
    forall i: nat | i < 7 ensures WordTaken(env, run, n, digest, i) <==> BloomFilter.Word(digest, i) % 9585 in bloom {
      WordTakenIff(env, run, n, digest, i);
    }
    forall p: nat ensures p in BloomFilter.Positions(digest)
                    <==> exists i :: 0 <= i < 7 && p == BloomFilter.Word(digest, i) % 9585 {
      BloomFilter.PositionsIff(digest, p);
    }
  }

  lemma {:induction false} BitsStay(env: CardEnv, run: Run, i: nat, j: nat)
    requires IsRun(env, run) && i <= j <= |run.evs|
    requires forall k :: i <= k < j ==> !Resets(run, k)
    ensures run.states[i].bloom <= run.states[j].bloom
  {
    if i < j {
      BitsStay(env, run, i, j - 1);
      RunLegal(env, run, j - 1);
      assert !Resets(run, j - 1);
      if Passes(run, j - 1) {
        PassFacts(env, run.states[j - 1], run.evs[j - 1]);
      }
    }
  }

  /** No basename passes twice without a successful reset in between. */
  lemma NoBasenameTwice(env: CardEnv, run: Run, i: nat, j: nat)
    requires IsRun(env, run) && i < j < |run.evs| && Passes(run, i) && Passes(run, j)
    requires BasenameOf(run.states[i], run.evs[i]) == BasenameOf(run.states[j], run.evs[j])
    ensures exists k :: i < k < j && Resets(run, k)
  {
    RunLegal(env, run, i);
    RunLegal(env, run, j);
    PassFacts(env, run.states[i], run.evs[i]);
    PassFacts(env, run.states[j], run.evs[j]);
    if forall k :: i < k < j ==> !Resets(run, k) {
      BitsStay(env, run, i + 1, j);
    }
  }

  /** The epoch moves only at successful resets, and strictly upwards there. */
  lemma EpochMoves(env: CardEnv, run: Run, n: nat)
    requires IsRun(env, run) && n < |run.evs|
    ensures var e, e' := run.states[n].epoch, run.states[n + 1].epoch;
            if Resets(run, n) then e' > e && run.states[n + 1].bloom == {} else e' == e
  {
    RunLegal(env, run, n);
  }

  /** The length is right and, once a reset key is set, the signature over the epoch bytes verifies. */
  predicate ResetAuthorised(env: CardEnv, st: CardState, data: Bytes)
    requires env.Valid() && Sane(st)
  {
    if st.resetKey.None? then |data| == 4
    else |data| == 4 + SWAP_AUTH_BYTES
         && SchnorrAuth(env, st.key.value.version, st.resetKey.value, data[..4], data[4..]) == Some(true)
  }

  /** Exactly which epochs reset the filter: an authorised four-byte epoch does when, read as
      unsigned, it exceeds the card's and stays below 2^31, since the card compares signed. */
  lemma ResettingEpochs(env: CardEnv, run: Run, n: nat)
    requires IsRun(env, run) && n < |run.evs| && Sane(run.states[n])
    requires run.evs[n].Apdu? && run.evs[n].cla == 0x80 && run.evs[n].ins == 0x30
    ensures var st, data := run.states[n], run.evs[n].data;
            Resets(run, n) <==> ResetAuthorised(env, st, data) && st.epoch < FromBE(data[..4]) < 0x8000_0000
    ensures Resets(run, n) ==> run.states[n + 1].epoch == FromBE(run.evs[n].data[..4])
  {
    RunLegal(env, run, n);
    var data := run.evs[n].data;
    if |data| >= 4 {
      ToFromBE(data[..4]);
      assert Pow(256, 4) == 0x1_0000_0000;
    }
  }

  // ----- Capacity -----

  lemma {:induction false} BoundedSet(s: set<nat>, n: nat)
    requires forall p :: p in s ==> p < n
    ensures |s| <= n
  {
    if n == 0 {
      assert s == {};
    } else {
      BoundedSet(s - {n - 1}, n - 1);
      Subset(s, (s - {n - 1}) + {n - 1});
    }
  }

  lemma Subset(s: set<nat>, t: set<nat>)
    requires s <= t
    ensures |s| <= |t| && (s != t ==> |s| < |t|)
  {
    assert t == s + (t - s) && |t| == |s| + |t - s|;
  }

  /** Each accepted basename sets at least one new bit and at most seven. Hence between resets
      at most 9585 basenames pass, whatever the hash. */
  lemma Capacity(env: CardEnv, run: Run, n: nat)
    requires IsRun(env, run) && n <= |run.evs|
    ensures var accepted := |PassedSince(run, n)|;
            && accepted <= |run.states[n].bloom| <= 7 * accepted
            && accepted <= BloomFilter.NUM_BITS
  {
    CapacityCount(env, run, n);
    RunInv(env, run, n);
    BoundedSet(run.states[n].bloom, BloomFilter.NUM_BITS);
  }

  lemma {:induction false} CapacityCount(env: CardEnv, run: Run, n: nat)
    requires IsRun(env, run) && n <= |run.evs|
    ensures |PassedSince(run, n)| <= |run.states[n].bloom| <= 7 * |PassedSince(run, n)|
  {
    if n > 0 {
      CapacityCount(env, run, n - 1);
      RunLegal(env, run, n - 1);
      if Passes(run, n - 1) {
        PassFacts(env, run.states[n - 1], run.evs[n - 1]);
        GrowsBySeven(run.states[n - 1].bloom, BasenameBits(env, run.states[n - 1], run.evs[n - 1]));
      }
    }
  }

  lemma GrowsBySeven(b: set<nat>, bits: set<nat>)
    requires !(bits <= b) && |bits| <= 7
    ensures |b| + 1 <= |b + bits| <= |b| + 7
  {
    Subset(b, b + bits);
    assert b + bits == b + (bits - b);
    Subset(bits - b, bits);
  }
}
