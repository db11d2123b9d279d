/** When does a commit fail after it has drawn its nonce, and so replace an open session? Exactly
    when double-and-add throws on one of its operands, which is decided from the command's bytes. */
module CommitFaults {
  import opened Options
  import opened Versions
  import opened Modular
  import opened Bytes
  import opened Curve
  import opened RawCurve
  import opened LadderFaults
  import opened ECMath
  import opened CardArithmetic
  import opened Overlap
  import opened CardSpec
  import opened CardRuns

  /** Multiplying the point in these bytes by k throws. */
  ghost predicate Throws(c: Params, s: Bytes, k: nat)
    requires Sound(c) && |s| == c.G1Bytes()
  {
    Trips(k, DecodePoint(s, c), c.p)
  }

  lemma MulThrows(c: Params, s: Bytes, k: nat)
    requires Sound(c) && |s| == c.G1Bytes()
    ensures MulBytes(c, s, k).None? <==> Throws(c, s, k)
  {
    ThrowsIff(k, DecodePoint(s, c), c.p);
  }

  /** One of a commit's multiplications throws: S by the nonce; with a basename also the basename by
      the share, and by the nonce what K_card has left of the basename. */
  ghost predicate OperandThrows(c: Params, sk: nat, s: Bytes, bsn: Option<Bytes>, r: nat)
    requires Sound(c) && |s| == c.G1Bytes() && (bsn.Some? ==> |bsn.value| == c.G1Bytes())
  {
    || Throws(c, s, r)
    || (bsn.Some? &&
         (|| Throws(c, bsn.value, sk)
          || (MulBytes(c, bsn.value, sk).Some?
              && Throws(c, Overlaid(MulBytes(c, bsn.value, sk).value, bsn.value), r))))
  }

  lemma CommitBytesThrow(env: CardEnv, c: Params, k: CardKey, s: Bytes, bsn: Option<Bytes>, r: nat)
    requires env.Valid() && Sound(c) && Computes(env, c) && k.version == c.version
    requires k.sk < Pow(256, 32) && r < Pow(256, 32)
    requires |s| == c.G1Bytes() && (bsn.Some? ==> |bsn.value| == c.G1Bytes())
    ensures CommitBytes(env, k, s, bsn, r).None? <==> OperandThrows(c, k.sk, s, bsn, r)
  {
    MulThrows(c, s, r);
    assert env.mul(c.version, s, r) == MulBytes(c, s, r);
    if bsn.Some? {
      var kCard := MulBytes(c, bsn.value, k.sk);
      MulThrows(c, bsn.value, k.sk);
      assert env.mul(c.version, bsn.value, k.sk) == kCard;
      if kCard.Some? {
        var seen := Overlaid(kCard.value, bsn.value);
        MulThrows(c, seen, r);
        assert env.mul(c.version, seen, r) == MulBytes(c, seen, r);
      }
    }
  }

  function ModeOf(ins: Byte): CommitMode {
    if ins == 0x11 then Basename else if ins == 0x13 then Swap else Plain
  }

  /** The command is a commit and passes every check that precedes its nonce. */
  ghost predicate LetThrough(env: CardEnv, st: CardState, ev: Event)
    requires env.Valid()
  {
    && IsCommit(ev) && ev.cla == 0x80 && st.key.Some? && ev.p1 == VersionByte(st.key.value.version)
    && if ev.ins == 0x20 then |ev.data| == G1Bytes(st.key.value.version)
       else CommitRefusal(env, st, ModeOf(ev.ins), ev.data).None?
  }

  /** Some multiplication of this commit throws. */
  ghost predicate CommitThrows(env: CardEnv, c: Params, st: CardState, ev: Event)
    requires env.Valid() && Sound(c) && LetThrough(env, st, ev) && st.key.value.version == c.version
  {
    var g, r := c.G1Bytes(), DrawnNonce(env, st, ev);
    OperandThrows(c, st.key.value.sk, ev.data[..g],
                  if ev.ins in {0x11, 0x13} then Some(ev.data[g..2 * g]) else None, r)
  }

  lemma NonceFits(env: CardEnv, st: CardState, ev: Event)
    requires env.Valid() && Inv(env, st) && st.key.Some? && ev.Apdu?
    ensures st.key.value.sk < Pow(256, 32) && DrawnNonce(env, st, ev) < Pow(256, 32)
  {
    assert 0 < env.order(st.key.value.version) <= Pow(256, 32);
  }

  /** What the property says of one step. */
  ghost predicate Decided(env: CardEnv, c: Params, st: CardState, ev: Event, out: Outcome)
    requires env.Valid() && Sound(c) && LetThrough(env, st, ev) && st.key.value.version == c.version
  {
    && out.state.session == Open(KindOf(ev), DrawnNonce(env, st, ev))
    && (if CommitThrows(env, c, st, ev) then out.reply == Fault(true) else out.reply.Ok?)
  }

  lemma JoinDecided(env: CardEnv, c: Params, st: CardState, ev: Event)
    requires env.Valid() && Inv(env, st) && Sound(c) && Computes(env, c)
    requires LetThrough(env, st, ev) && st.key.value.version == c.version && ev.ins == 0x20
    ensures Decided(env, c, st, ev, JoinCommitStep(env, st, ev.data, ev.rnd))
  {
    var r := DrawnNonce(env, st, ev);
    NonceFits(env, st, ev);
    assert ev.data[..c.G1Bytes()] == ev.data;
    CommitBytesThrow(env, c, st.key.value, ev.data, None, r);
  }

  lemma SignDecided(env: CardEnv, c: Params, st: CardState, ev: Event)
    requires env.Valid() && Inv(env, st) && Sound(c) && Computes(env, c)
    requires LetThrough(env, st, ev) && st.key.value.version == c.version && ev.ins != 0x20
    ensures Decided(env, c, st, ev, SignCommitStep(env, st, ModeOf(ev.ins), ev.data, ev.rnd))
  {
    var g, r := c.G1Bytes(), DrawnNonce(env, st, ev);
    NonceFits(env, st, ev);
    CommitBytesThrow(env, c, st.key.value, ev.data[..g], if ev.ins == 0x10 then None else Some(ev.data[g..2 * g]), r);
  }

  /** A commit that is let through throws, and then opens its session all the same, exactly under
      the condition on its operands. */
  lemma LetThroughStep(env: CardEnv, c: Params, st: CardState, ev: Event)
    requires env.Valid() && Inv(env, st) && Sound(c) && Computes(env, c)
    requires LetThrough(env, st, ev) && st.key.value.version == c.version
    ensures Decided(env, c, st, ev, Step(env, st, ev))
  {
    assert Step(env, st, ev) == Handle(env, st, ev);
    if ev.ins == 0x20 {
      JoinDecided(env, c, st, ev);
    } else {
      SignDecided(env, c, st, ev);
    }
  }

  /** Whatever else fails leaves the session alone. */
  lemma OtherFailures(env: CardEnv, st: CardState, ev: Event)
    requires env.Valid() && Inv(env, st) && !LetThrough(env, st, ev)
    ensures var out := Step(env, st, ev);
            !out.reply.Ok? ==> out.reply != Fault(true) && out.state.session == st.session
  {
    StepLegal(env, st, ev);
    var out := Step(env, st, ev);
    if out.reply == Fault(true) {
      FaultStep(env, st, ev);
      NotLetThrough(env, st, ev);
      assert false;
    }
  }

  lemma NotLetThrough(env: CardEnv, st: CardState, ev: Event)
    requires env.Valid() && Inv(env, st) && IsCommit(ev) && st.key.Some? && !LetThrough(env, st, ev)
    ensures Step(env, st, ev).reply != Fault(true)
  {
    if ev.ins != 0x20 && CommitRefusal(env, st, ModeOf(ev.ins), ev.data).Some? {
      RefusalKinds(env, st, ModeOf(ev.ins), ev.data);
    }
  }

  /** In every run: a command fails and still changes the session if and only if it is a commit that
      passes the checks, some multiplication of it throws, and the session was not already that one. */
  lemma FailureReplacesSession(env: CardEnv, c: Params, run: Run, n: nat)
    requires IsRun(env, run) && n < |run.evs| && Sound(c) && Computes(env, c)
    requires run.states[n].key.Some? ==> run.states[n].key.value.version == c.version
    ensures var st, ev, reply := run.states[n], run.evs[n], run.replies[n];
            && (reply == Fault(true) <==> LetThrough(env, st, ev) && CommitThrows(env, c, st, ev))
            && (!reply.Ok? && run.states[n + 1].session != st.session
                <==> LetThrough(env, st, ev) && CommitThrows(env, c, st, ev)
                     && st.session != Open(KindOf(ev), DrawnNonce(env, st, ev)))
  {
    var st, ev := run.states[n], run.evs[n];
    RunLegal(env, run, n);
    if LetThrough(env, st, ev) {
      LetThroughStep(env, c, st, ev);
    } else {
      OtherFailures(env, st, ev);
    }
  }

  // ----- When that cannot happen -----

  /** Bytes that hold coordinates below p never throw, nor do bytes that reduce to a point of the
      group of order r, as on BN254 every point of the curve is. */
  lemma HarmlessOperands(c: Params, s: Bytes, k: nat)
    requires Sound(c) && |s| == c.G1Bytes() && k < c.r
    requires Canonical(DecodePoint(s, c), c.p) || BasenameGroup(c, Reduce(DecodePoint(s, c), c.p))
    ensures !Throws(c, s, k)
  {
    var pt := DecodePoint(s, c);
    if Canonical(pt, c.p) {
      ReducedNeverTrips(k, pt, c.p);
    } else {
      GroupNeverTrips(k, pt, c.r, c.b, c.p);
    }
  }

  lemma HarmlessOnBN254(c: Params, s: Bytes, k: nat)
    requires WholeGroup(c) && |s| == c.G1Bytes() && k < c.r && OnCurve(Reduce(DecodePoint(s, c), c.p), c.b, c.p)
    ensures !Throws(c, s, k)
  {
    HarmlessOperands(c, s, k);
  }

  /** So with such a point a SIGN_COMMIT without a basename, or a JOIN_COMMIT, that fails leaves the
      session alone in every run. */
  lemma HarmlessCommit(env: CardEnv, c: Params, run: Run, n: nat)
    requires IsRun(env, run) && n < |run.evs| && Sound(c) && Computes(env, c) && env.order(c.version) == c.r
    requires run.states[n].key.Some? ==> run.states[n].key.value.version == c.version
    requires var ev := run.evs[n];
             && ev.Apdu? && ev.ins in {0x10, 0x20} && |ev.data| == c.G1Bytes()
             && (Canonical(DecodePoint(ev.data, c), c.p) || BasenameGroup(c, Reduce(DecodePoint(ev.data, c), c.p)))
    ensures !run.replies[n].Ok? ==> run.states[n + 1].session == run.states[n].session
  {
    var st, ev := run.states[n], run.evs[n];
    FailureReplacesSession(env, c, run, n);
    if LetThrough(env, st, ev) {
      assert ev.data[..c.G1Bytes()] == ev.data;
      HarmlessOperands(c, ev.data, DrawnNonce(env, st, ev));
    }
  }

  /** Bytes that reduce to a point of the curve: it is the point's order that decides. */
  lemma ThrowsByOrder(c: Params, s: Bytes, k: nat)
    requires Sound(c) && |s| == c.G1Bytes() && Associative(c.b, c.p)
    requires OnCurve(Reduce(DecodePoint(s, c), c.p), c.b, c.p)
    ensures var pt := DecodePoint(s, c);
            && (Throws(c, s, k)
                <==> pt.Affine? && k >= 2
                     && (Vertical(pt, c.p) || (!AbscissaReduced(pt, c.p) && OrderOnTheWay(k, Reduce(pt, c.p), c.p))))
  {
    ThrowsIff(k, DecodePoint(s, c), c.p);
    if DecodePoint(s, c).Affine? { ThrowsInGroup(k, DecodePoint(s, c), c.b, c.p); }
  }

  /** It can happen on BLS12-381 too: p as abscissa stands for 0, and (0, 2) has order three, so a
      JOIN_COMMIT throws for every nonce whose binary form begins with two ones. */
  lemma JoinThrowsOnBLS381(env: CardEnv, c: Params, st: CardState, rnd: nat)
    requires env.Valid() && Inv(env, st) && c == BLS381_PARAMS && Sound(c) && Computes(env, c)
    requires st.key.Some? && st.key.value.version == BLS381 && Prefix(3, rnd % env.order(BLS381))
    ensures Fits(Affine(c.p, 2), c)
    ensures var ev := Apdu(0x80, 0x20, 1, EncodePoint(Affine(c.p, 2), c), rnd);
            && Step(env, st, ev).reply == Fault(true)
            && Step(env, st, ev).state.session == Open(Join, rnd % env.order(BLS381))
  {
    UnreducedThird(c);
    var ev := Apdu(0x80, 0x20, 1, EncodePoint(Affine(c.p, 2), c), rnd);
    ThirdThrows(rnd % env.order(BLS381), 2, c.p);
    JoinOperand(env, c, st, ev);
    LetThroughStep(env, c, st, ev);
  }

  lemma JoinOperand(env: CardEnv, c: Params, st: CardState, ev: Event)
    requires env.Valid() && Sound(c) && st.key.Some? && st.key.value.version == c.version
    requires ev.Apdu? && ev.cla == 0x80 && ev.ins == 0x20 && ev.p1 == VersionByte(c.version) && |ev.data| == c.G1Bytes()
    requires Throws(c, ev.data, DrawnNonce(env, st, ev))
    ensures LetThrough(env, st, ev) && CommitThrows(env, c, st, ev)
  {
    assert ev.data[..c.G1Bytes()] == ev.data;
  }

  lemma UnreducedThird(c: Params)
    requires c == BLS381_PARAMS && Sound(c)
    ensures Fits(Affine(c.p, 2), c) && DecodePoint(EncodePoint(Affine(c.p, 2), c), c) == Affine(c.p, 2)
  {
    assert c.p % 2 != 0;
    FlaggedRead(c.p, 2, c);
    FourAtZero(c);
    RootSelected(2, c.p);
  }

  lemma FourAtZero(c: Params)
    requires Sound(c) && c.b == 4 && c.p > 4
    ensures RightHandSide(c.p, c) == (2 * 2) % c.p
  {
    var p := c.p;
    ModUnique(p * p * p, p * p, 0, p);
    ModUnique(0, 0, 0, p);
    CongAdd(p * p * p, 0, c.b, c.b, p);
    CurveValue(p, 2, c);
  }
}
