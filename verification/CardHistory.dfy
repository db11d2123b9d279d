/** The card's state read off its history, over every run: which command set each part of it, which
    commands are accepted, and what the status and attestation replies say. */
module CardHistory {
  import opened Options
  import opened Versions
  import opened Bytes
  import opened Modular
  import opened CardSpec
  import opened CardRuns

  /** Event n was command ins, and it succeeded. */
  predicate Succeeded(run: Run, n: nat, ins: Byte)
    requires n < |run.evs| && |run.replies| == |run.evs|
  {
    run.evs[n].Apdu? && run.evs[n].ins == ins && run.replies[n].Ok?
  }

  /** The last time command ins succeeded before n. */
  function LastSuccess(run: Run, ins: Byte, n: nat): (k: Option<nat>)
    requires n <= |run.evs| && |run.replies| == |run.evs|
    ensures k.Some? ==> k.value < n && Succeeded(run, k.value, ins)
    ensures forall m :: (if k.Some? then k.value else -1) < m < n ==> !Succeeded(run, m, ins)
  {
    if n == 0 then None else if Succeeded(run, n - 1, ins) then Some(n - 1) else LastSuccess(run, ins, n - 1)
  }

  /** The data of that command. */
  function LastData(run: Run, ins: Byte, n: nat): Option<Bytes>
    requires n <= |run.evs| && |run.replies| == |run.evs|
  {
    var k := LastSuccess(run, ins, n);
    if k.None? then None else Some(run.evs[k.value].data)
  }

  lemma LastDataStep(run: Run, ins: Byte, n: nat)
    requires 0 < n <= |run.evs| && |run.replies| == |run.evs|
    ensures LastData(run, ins, n)
         == if Succeeded(run, n - 1, ins) then Some(run.evs[n - 1].data) else LastData(run, ins, n - 1)
    ensures LastSuccess(run, ins, n).Some? <==> Succeeded(run, n - 1, ins) || LastSuccess(run, ins, n - 1).Some?
  {
  }

  // ----- Single steps -----

  lemma KeyStep(env: CardEnv, st: CardState, ev: Event)
    requires env.Valid() && Inv(env, st)
    ensures var out := Step(env, st, ev);
            if ev.Apdu? && ev.ins == 0x01 && out.reply.Ok?
            then && st.key.None? && ev.p1 in {0, 1}
                 && out.state.key == Some(CardKey(if ev.p1 == 0 then BN254 else BLS381,
                                                  ev.rnd % env.order(if ev.p1 == 0 then BN254 else BLS381)))
            else out.state.key == st.key
  {
    StepLegal(env, st, ev);
  }

  /** What a step does to the configuration. */
  ghost predicate Configures(st: CardState, ev: Event, out: Outcome) {
    var ok := ev.Apdu? && out.reply.Ok?;
    && out.state.swapKey == (if ok && ev.ins == 0x31 then Some(ev.data) else st.swapKey)
    && out.state.resetKey == (if ok && ev.ins == 0x32 then Some(ev.data) else st.resetKey)
    && out.state.mfrCert == (if ok && ev.ins == 0x61 then Some(ev.data) else st.mfrCert)
    && out.state.mfrKeyGenerated == ((ok && ev.ins == 0x60) || st.mfrKeyGenerated)
  }

  lemma CommitConfigures(env: CardEnv, st: CardState, ev: Event, mode: CommitMode)
    requires env.Valid() && Inv(env, st) && IsCommit(ev) && st.key.Some?
    ensures Configures(st, ev, SignCommitStep(env, st, mode, ev.data, ev.rnd))
    ensures Configures(st, ev, JoinCommitStep(env, st, ev.data, ev.rnd))
  {
  }

  lemma HandleConfigures(env: CardEnv, st: CardState, ev: Event)
    requires env.Valid() && Inv(env, st) && ev.Apdu? && VersionRefusal(st, ev.ins, ev.p1).None? && !IsCommit(ev)
    ensures Configures(st, ev, Handle(env, st, ev))
  {
    if ev.ins in {0x60, 0x61, 0x62} { ManufacturerConfigures(env, st, ev); }
  }

  lemma ManufacturerConfigures(env: CardEnv, st: CardState, ev: Event)
    requires env.Valid() && Inv(env, st) && ev.Apdu? && ev.ins in {0x60, 0x61, 0x62}
    ensures Configures(st, ev, MfrStep(env, st, ev.ins, ev.data))
  {
  }

  lemma ConfigurationStep(env: CardEnv, st: CardState, ev: Event)
    requires env.Valid() && Inv(env, st)
    ensures Configures(st, ev, Step(env, st, ev))
  {
    if ev.Apdu? && ev.cla == 0x80 && VersionRefusal(st, ev.ins, ev.p1).None? {
      assert Step(env, st, ev) == Handle(env, st, ev);
      if IsCommit(ev) {
        CommitConfigures(env, st, ev, if ev.ins == 0x11 then Basename else if ev.ins == 0x13 then Swap else Plain);
      } else {
        HandleConfigures(env, st, ev);
      }
    }
  }

  // ----- The parts of the state -----

  /** The key is the first successful GENERATE_KEY's draw modulo the order of the curve its p1 names;
      no second one succeeds. */
  lemma {:induction false} KeyHistory(env: CardEnv, run: Run, n: nat)
    requires IsRun(env, run) && n <= |run.evs|
    ensures forall i, j :: 0 <= i < j < n && Succeeded(run, i, 0x01) ==> !Succeeded(run, j, 0x01)
    ensures var k := LastSuccess(run, 0x01, n);
            if k.None? then run.states[n].key.None?
            else var ev := run.evs[k.value];
                 var v := if ev.p1 == 0 then BN254 else BLS381;
                 ev.p1 in {0, 1} && run.states[n].key == Some(CardKey(v, ev.rnd % env.order(v)))
  {
    if n > 0 {
      KeyHistory(env, run, n - 1);
      RunLegal(env, run, n - 1);
      KeyStep(env, run.states[n - 1], run.evs[n - 1]);
      forall i, j | 0 <= i < j < n && Succeeded(run, i, 0x01) ensures !Succeeded(run, j, 0x01) {
        if j == n - 1 { assert LastSuccess(run, 0x01, n - 1).Some?; }
      }
    }
  }

  lemma AuthorisationStep(run: Run, n: nat)
    requires 0 < n <= |run.evs| && |run.replies| == |run.evs| < |run.states|
    requires Configures(run.states[n - 1], run.evs[n - 1], Outcome(run.states[n], run.replies[n - 1]))
    ensures run.states[n - 1].swapKey == LastData(run, 0x31, n - 1) ==> run.states[n].swapKey == LastData(run, 0x31, n)
    ensures run.states[n - 1].resetKey == LastData(run, 0x32, n - 1)
        ==> run.states[n].resetKey == LastData(run, 0x32, n)
  {
    LastDataStep(run, 0x31, n);
    LastDataStep(run, 0x32, n);
  }

  lemma ManufacturerStep(run: Run, n: nat)
    requires 0 < n <= |run.evs| && |run.replies| == |run.evs| < |run.states|
    requires Configures(run.states[n - 1], run.evs[n - 1], Outcome(run.states[n], run.replies[n - 1]))
    ensures run.states[n - 1].mfrCert == LastData(run, 0x61, n - 1) ==> run.states[n].mfrCert == LastData(run, 0x61, n)
    ensures (run.states[n - 1].mfrKeyGenerated <==> LastSuccess(run, 0x60, n - 1).Some?)
        ==> (run.states[n].mfrKeyGenerated <==> LastSuccess(run, 0x60, n).Some?)
  {
    LastDataStep(run, 0x60, n);
    LastDataStep(run, 0x61, n);
  }

  /** Authorisation keys and certificate are the data of the last successful command for each, and
      the manufacturer key exists once it has been generated. */
  lemma {:induction false} ConfigurationHistory(env: CardEnv, run: Run, n: nat)
    requires IsRun(env, run) && n <= |run.evs|
    ensures run.states[n].swapKey == LastData(run, 0x31, n)
    ensures run.states[n].resetKey == LastData(run, 0x32, n)
    ensures run.states[n].mfrCert == LastData(run, 0x61, n)
    ensures run.states[n].mfrKeyGenerated <==> LastSuccess(run, 0x60, n).Some?
  {
    if n > 0 {
      ConfigurationHistory(env, run, n - 1);
      RunLegal(env, run, n - 1);
      ConfigurationStep(env, run.states[n - 1], run.evs[n - 1]);
      AuthorisationStep(run, n);
      ManufacturerStep(run, n);
    }
  }

  /** The epoch is that of the last successful reset, zero before any. */
  lemma {:induction false} EpochHistory(env: CardEnv, run: Run, n: nat)
    requires IsRun(env, run) && n <= |run.evs|
    ensures var data := LastData(run, 0x30, n);
            run.states[n].epoch == if data.Some? && |data.value| >= 4 then FromBE(data.value[..4]) else 0
    ensures LastData(run, 0x30, n).Some? ==> |LastData(run, 0x30, n).value| in {4, 68}
  {
    if n > 0 {
      EpochHistory(env, run, n - 1);
      EpochStep(env, run, n - 1);
      LastDataStep(run, 0x30, n);
    }
  }

  lemma EpochStep(env: CardEnv, run: Run, n: nat)
    requires IsRun(env, run) && n < |run.evs|
    ensures if Succeeded(run, n, 0x30)
            then |run.evs[n].data| in {4, 68} && run.states[n + 1].epoch == FromBE(run.evs[n].data[..4])
            else run.states[n + 1].epoch == run.states[n].epoch
  {
    EpochMoves(env, run, n);
    if Succeeded(run, n, 0x30) {
      RunLegal(env, run, n);
      ResetCommand(env, run.states[n], run.evs[n]);
      ResettingEpochs(env, run, n);
    }
  }

  lemma ResetCommand(env: CardEnv, st: CardState, ev: Event)
    requires env.Valid() && Inv(env, st) && ev.Apdu? && ev.ins == 0x30 && Step(env, st, ev).reply.Ok?
    ensures ev.cla == 0x80 && |ev.data| in {4, 68}
  {
  }

  /** A command that reaches its handler on a card with a key: class byte and curve are right. */
  predicate Addressed(st: CardState, ev: Event) {
    ev.Apdu? && ev.cla == 0x80 && st.key.Some? && ev.p1 == VersionByte(st.key.value.version)
  }

  lemma CommitPersonalizes(env: CardEnv, st: CardState, ev: Event)
    requires env.Valid() && Inv(env, st) && Addressed(st, ev) && IsCommit(ev)
    ensures Step(env, st, ev).state.personalized
  {
    assert Step(env, st, ev) == Handle(env, st, ev);
  }

  lemma PersonalizedStep(env: CardEnv, st: CardState, ev: Event)
    requires env.Valid() && Inv(env, st)
    ensures Step(env, st, ev).state.personalized <==> st.personalized || (Addressed(st, ev) && IsCommit(ev))
  {
    StepLegal(env, st, ev);
    if IsCommit(ev) {
      if Addressed(st, ev) { CommitPersonalizes(env, st, ev); } else { NotAddressed(env, st, ev); }
    }
  }

  lemma NotAddressed(env: CardEnv, st: CardState, ev: Event)
    requires env.Valid() && Inv(env, st) && IsCommit(ev) && !Addressed(st, ev)
    ensures Step(env, st, ev).state == st
  {
  }

  /** The card is personalized by its first commit, refused or not. */
  lemma {:induction false} PersonalizedHistory(env: CardEnv, run: Run, n: nat)
    requires IsRun(env, run) && n <= |run.evs|
    ensures run.states[n].personalized
       <==> exists i {:trigger Addressed(run.states[i], run.evs[i])} ::
              0 <= i < n && Addressed(run.states[i], run.evs[i]) && IsCommit(run.evs[i])
  {
    if n > 0 {
      PersonalizedHistory(env, run, n - 1);
      RunLegal(env, run, n - 1);
      PersonalizedStep(env, run.states[n - 1], run.evs[n - 1]);
      if exists i {:trigger Addressed(run.states[i], run.evs[i])} ::
           0 <= i < n && Addressed(run.states[i], run.evs[i]) && IsCommit(run.evs[i]) {
        var i :| 0 <= i < n && Addressed(run.states[i], run.evs[i]) && IsCommit(run.evs[i]);
        assert i < n - 1 || i == n - 1;
      }
    }
  }

  // ----- Which commands succeed -----

  /** The condition on a command other than a commit. */
  ghost predicate Acceptable(env: CardEnv, st: CardState, ev: Event)
    requires env.Valid() && Sane(st) && ev.Apdu?
  {
    var g := if st.key.Some? then G1Bytes(st.key.value.version) else 0;
    if ev.ins == 0x01 then ev.cla == 0x80 && ev.p1 in {0, 1} && st.key.None?
    else if ev.ins == 0x02 then
      Addressed(st, ev) && |ev.data| == g && env.mul(st.key.value.version, ev.data, st.key.value.sk).Some?
    else if ev.ins in {0x12, 0x21} then
      Addressed(st, ev) && |ev.data| == 32 && st.session.Open? && st.session.kind == KindOf(ev)
    else if ev.ins == 0x30 then
      ev.cla == 0x80 && ResetAuthorised(env, st, ev.data) && st.epoch < FromBE(ev.data[..4]) < 0x8000_0000
    else if ev.ins in {0x31, 0x32} then Addressed(st, ev) && |ev.data| == g && !st.personalized
    else if ev.ins == 0x40 then ev.cla == 0x80
    else if ev.ins == 0x60 then ev.cla == 0x80 && !st.mfrKeyGenerated
    else if ev.ins == 0x61 then ev.cla == 0x80 && st.mfrKeyGenerated && !st.personalized && 1 <= |ev.data| <= 72
    else if ev.ins == 0x62 then ev.cla == 0x80 && st.mfrKeyGenerated && st.mfrCert.Some? && |ev.data| == 32
    else false
  }

  /** A command other than a commit succeeds in a run exactly when it is acceptable. */
  lemma SucceedsIff(env: CardEnv, run: Run, n: nat)
    requires IsRun(env, run) && n < |run.evs| && run.evs[n].Apdu? && !IsCommit(run.evs[n])
    ensures Sane(run.states[n]) && (run.replies[n].Ok? <==> Acceptable(env, run.states[n], run.evs[n]))
  {
    RunLegal(env, run, n);
    if run.evs[n].ins != 0x30 {
      AcceptableIff(env, run.states[n], run.evs[n]);
    } else if run.evs[n].cla == 0x80 {
      ResettingEpochs(env, run, n);
    }
  }

  lemma AcceptableIff(env: CardEnv, st: CardState, ev: Event)
    requires env.Valid() && Inv(env, st) && ev.Apdu? && !IsCommit(ev) && ev.ins != 0x30
    ensures Step(env, st, ev).reply.Ok? <==> Acceptable(env, st, ev)
  {
    if ev.ins in {0x60, 0x61, 0x62} { ManufacturerAcceptable(env, st, ev); }
  }

  lemma ManufacturerAcceptable(env: CardEnv, st: CardState, ev: Event)
    requires env.Valid() && Inv(env, st) && ev.Apdu? && ev.ins in {0x60, 0x61, 0x62}
    ensures Step(env, st, ev).reply.Ok? <==> Acceptable(env, st, ev)
  {
  }

  /** What a successful command other than a commit, a response, a status or an attestation answers. */
  lemma PlainReplies(env: CardEnv, run: Run, n: nat)
    requires IsRun(env, run) && n < |run.evs| && run.replies[n].Ok?
    ensures var st, ev, reply := run.states[n], run.evs[n], run.replies[n];
            ev.Apdu? ==>
              && (ev.ins in {0x01, 0x30, 0x31, 0x32, 0x61} ==> reply == Ok([]))
              && (ev.ins == 0x60 ==> reply == Ok(env.mfrPublicKey))
              && (ev.ins == 0x02 ==>
                   st.key.Some? && env.mul(st.key.value.version, ev.data, st.key.value.sk) == Some(reply.data))
  {
    RunLegal(env, run, n);
  }

  predicate Free(ins: Byte) {
    ins in {0x30, 0x40, 0x60, 0x61, 0x62}
  }

  predicate Known(ins: Byte) {
    Free(ins) || ins in {0x01, 0x02, 0x10, 0x11, 0x12, 0x13, 0x20, 0x21, 0x31, 0x32}
  }

  /** The status words that say how a command is misaddressed or comes too late, each with its exact
      condition. */
  predicate WordsFit(st: CardState, ev: Event, reply: Reply)
    requires ev.Apdu?
  {
    var badCurve := if ev.ins == 0x01 then ev.p1 !in {0, 1}
                    else !Free(ev.ins) && st.key.Some? && ev.p1 != VersionByte(st.key.value.version);
    var late := (Addressed(st, ev) && ev.ins in {0x31, 0x32})
                || (ev.cla == 0x80 && ev.ins == 0x61 && st.mfrKeyGenerated);
    && (reply == Sw(0x6E00) <==> ev.cla != 0x80)
    && (reply == Sw(0x6A86) <==> ev.cla == 0x80 && badCurve)
    && (reply == Sw(0x6D00) <==> Addressed(st, ev) && !Known(ev.ins))
    && (reply == Sw(0x6A8A) <==> st.personalized && late)
    && (reply == Sw(0x6A8B) <==> ev.cla == 0x80 && ev.ins in {0x61, 0x62} && !st.mfrKeyGenerated)
    && (reply == Sw(0x6A8C) <==> ev.cla == 0x80 && ev.ins == 0x62 && st.mfrKeyGenerated && st.mfrCert.None?)
  }

  lemma MisaddressedWords(env: CardEnv, st: CardState, ev: Event)
    requires env.Valid() && Inv(env, st) && ev.Apdu? && (ev.cla != 0x80 || VersionRefusal(st, ev.ins, ev.p1).Some?)
    ensures WordsFit(st, ev, Step(env, st, ev).reply)
  {
  }

  lemma HandledWords(env: CardEnv, st: CardState, ev: Event)
    requires env.Valid() && Inv(env, st) && ev.Apdu? && ev.cla == 0x80 && VersionRefusal(st, ev.ins, ev.p1).None?
    requires !IsCommit(ev)
    ensures WordsFit(st, ev, Handle(env, st, ev).reply)
  {
  }

  /** So it is in every run. */
  lemma StatusWordsIff(env: CardEnv, run: Run, n: nat)
    requires IsRun(env, run) && n < |run.evs| && run.evs[n].Apdu?
    ensures WordsFit(run.states[n], run.evs[n], run.replies[n])
  {
    RunLegal(env, run, n);
    var st, ev := run.states[n], run.evs[n];
    if ev.cla != 0x80 || VersionRefusal(st, ev.ins, ev.p1).Some? {
      MisaddressedWords(env, st, ev);
    } else if IsCommit(ev) {
      CommitWords(env, st, ev);
    } else {
      assert Step(env, st, ev) == Handle(env, st, ev);
      HandledWords(env, st, ev);
    }
  }

  lemma CommitWords(env: CardEnv, st: CardState, ev: Event)
    requires env.Valid() && Inv(env, st) && Addressed(st, ev) && IsCommit(ev)
    ensures var reply := Step(env, st, ev).reply;
            reply.Sw? ==> reply.sw in {0x6700, 0x6A84, 0x6A85, 0x6A87}
  {
    assert Step(env, st, ev) == Handle(env, st, ev);
  }

  // ----- Replies that report -----

  predicate BitOf(b: Byte, mask: int)
    requires mask > 0
  {
    b / mask % 2 == 1
  }

  lemma LowDigit(bit: int, rest: int)
    requires 0 <= bit < 2
    ensures (bit + 2 * rest) % 2 == bit && (bit + 2 * rest) / 2 == rest
  {
  }

  lemma Halvings(b: int)
    ensures b / 4 == b / 2 / 2 && b / 8 == b / 4 / 2 && b / 16 == b / 8 / 2
    ensures b / 32 == b / 16 / 2 && b / 64 == b / 32 / 2
  {
  }

  lemma Digits(b: int, a0: int, a1: int, a2: int, a3: int, a4: int, a5: int, a6: int)
    requires 0 <= a0 < 2 && 0 <= a1 < 2 && 0 <= a2 < 2 && 0 <= a3 < 2 && 0 <= a4 < 2 && 0 <= a5 < 2 && 0 <= a6 < 2
    requires b == a0 + 2 * (a1 + 2 * (a2 + 2 * (a3 + 2 * (a4 + 2 * (a5 + 2 * a6)))))
    ensures b % 2 == a0 && b / 2 % 2 == a1 && b / 4 % 2 == a2 && b / 8 % 2 == a3
    ensures b / 16 % 2 == a4 && b / 32 % 2 == a5 && b / 64 % 2 == a6
  {
    Halvings(b);
    LowDigit(a0, a1 + 2 * (a2 + 2 * (a3 + 2 * (a4 + 2 * (a5 + 2 * a6)))));
    LowDigit(a1, a2 + 2 * (a3 + 2 * (a4 + 2 * (a5 + 2 * a6))));
    LowDigit(a2, a3 + 2 * (a4 + 2 * (a5 + 2 * a6)));
    LowDigit(a3, a4 + 2 * (a5 + 2 * a6));
    LowDigit(a4, a5 + 2 * a6);
    LowDigit(a5, a6);
  }

  function One(set_: bool): int { if set_ then 1 else 0 }

  lemma FlagBits(st: CardState)
    ensures var b := StatusFlags(st);
            && (BitOf(b, 0x01) <==> st.key.Some?) && (BitOf(b, 0x02) <==> st.session.Open?)
            && (BitOf(b, 0x04) <==> st.swapKey.Some?) && (BitOf(b, 0x08) <==> st.resetKey.Some?)
            && (BitOf(b, 0x10) <==> st.personalized) && (BitOf(b, 0x20) <==> st.mfrKeyGenerated)
            && (BitOf(b, 0x40) <==> st.mfrCert.Some?) && b < 0x80
  {
    Digits(StatusFlags(st), One(st.key.Some?), One(st.session.Open?), One(st.swapKey.Some?), One(st.resetKey.Some?),
           One(st.personalized), One(st.mfrKeyGenerated), One(st.mfrCert.Some?));
  }

  /** GET_STATUS reports the history: each flag, the epoch and the curve can be read back. */
  lemma StatusReports(env: CardEnv, run: Run, n: nat)
    requires IsRun(env, run) && n < |run.evs| && Succeeded(run, n, 0x40)
    ensures var d := run.replies[n].data;
            && |d| == 6 && d[0] < 0x80
            && (BitOf(d[0], 0x01) <==> LastSuccess(run, 0x01, n).Some?)
            && (BitOf(d[0], 0x02) <==> Origin(run, n).Some?)
            && (BitOf(d[0], 0x04) <==> LastSuccess(run, 0x31, n).Some?)
            && (BitOf(d[0], 0x08) <==> LastSuccess(run, 0x32, n).Some?)
            && (BitOf(d[0], 0x10) <==> run.states[n].personalized)
            && (BitOf(d[0], 0x20) <==> LastSuccess(run, 0x60, n).Some?)
            && (BitOf(d[0], 0x40) <==> LastSuccess(run, 0x61, n).Some?)
            && FromBE(d[1..5]) == run.states[n].epoch
            && d[5] == (if run.states[n].key.Some? && run.states[n].key.value.version.BLS381? then 1 else 0)
  {
    var st := run.states[n];
    RunLegal(env, run, n);
    FlagBits(st);
    KeyHistory(env, run, n);
    ConfigurationHistory(env, run, n);
    SessionHasOrigin(env, run, n);
    StatusBytes(st);
  }

  lemma StatusBytes(st: CardState)
    requires 0 <= st.epoch < 0x8000_0000
    ensures var d := StatusStep(st).reply.data;
            |d| == 6 && d[0] == StatusFlags(st) && FromBE(d[1..5]) == st.epoch
            && d[5] == if st.key.Some? && st.key.value.version.BLS381? then 1 else 0
  {
    var d := StatusStep(st).reply.data;
    assert Pow(256, 4) == 0x1_0000_0000;
    ModUnique(st.epoch, 0, st.epoch, 0x1_0000_0000);
    FitsBE(st.epoch, 4);
    assert d[1..5] == ToBE(st.epoch, 4);
  }

  /** MFR_ATTEST answers the signature over the challenge, the certificate last set and the public
      key, each to be found behind its length. */
  lemma AttestationReports(env: CardEnv, run: Run, n: nat)
    requires IsRun(env, run) && n < |run.evs| && Succeeded(run, n, 0x62)
    ensures var d, cert := run.replies[n].data, LastData(run, 0x61, n);
            && cert.Some? && |d| >= 1
            && var l: nat := d[0];
               && |d| >= 2 + l && d[1..1 + l] == env.mfrSign(run.evs[n].data)
               && var m: nat := d[1 + l];
                  && |d| == 2 + l + m + 65 && d[2 + l..2 + l + m] == cert.value
                  && d[2 + l + m..] == env.mfrPublicKey
  {
    RunLegal(env, run, n);
    ConfigurationHistory(env, run, n);
    AttestationFields(env, run.states[n].mfrCert.value, run.evs[n].data);
  }

  lemma AttestationFields(env: CardEnv, cert: Bytes, challenge: Bytes)
    requires env.Valid() && |cert| <= MAX_DER_BYTES
    ensures var d, sig := Attestation(env, cert, challenge), env.mfrSign(challenge);
            && |d| == 2 + |sig| + |cert| + 65 && d[0] == |sig| && d[1..1 + |sig|] == sig
            && d[1 + |sig|] == |cert| && d[2 + |sig|..2 + |sig| + |cert|] == cert
            && d[2 + |sig| + |cert|..] == env.mfrPublicKey
  {
  }
}
