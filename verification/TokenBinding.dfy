/** What the card's authorisations are bound to: a swap token to its basename, a reset signature to
    its epoch. Two uses of one authorisation show two different inputs with one hash. */
module TokenBinding {
  import opened Options
  import opened Versions
  import opened Bytes
  import opened Modular
  import opened Residues
  import opened Ecdaa
  import opened SwapAuth
  import opened CardSpec
  import opened CardRuns
  import opened CardHistory

  /** Two different inputs that hash to the same challenge. */
  ghost predicate Collide(env: CardEnv, v: Version, d: Bytes, d': Bytes)
    requires env.Valid()
  {
    d != d' && FromBE(env.sha256(d)) % env.order(v) == FromBE(env.sha256(d')) % env.order(v)
  }

  lemma SameMiddle(a: Bytes, m: Bytes, m': Bytes, b: Bytes)
    requires a + m + b == a + m' + b
    ensures m == m'
  {
    assert |m| == |m'|;
    assert (a + m + b)[|a|..|a| + |m|] == m && (a + m' + b)[|a|..|a| + |m|] == m';
  }

  lemma SameBytes(x: nat, y: nat, order: nat)
    requires 0 < order <= Pow(256, 32) && ToBE(x % order, 32) == ToBE(y % order, 32)
    ensures x % order == y % order
  {
    FitsBE(x % order, 32);
    FitsBE(y % order, 32);
  }

  /** An authorisation accepted for two contexts shows a collision. */
  lemma AuthBinds(env: CardEnv, v: Version, pubkey: Bytes, ctx: Bytes, ctx': Bytes, auth: Bytes)
    requires env.Valid() && |auth| == 64 && ctx != ctx'
    requires SchnorrAuth(env, v, pubkey, ctx, auth) == Some(true)
    requires SchnorrAuth(env, v, pubkey, ctx', auth) == Some(true)
    ensures var r := Commitment(env, v, pubkey, auth);
            r.Some? && Collide(env, v, r.value + ctx + pubkey, r.value + ctx' + pubkey)
  {
    AuthIff(env, v, pubkey, ctx, auth);
    AuthIff(env, v, pubkey, ctx', auth);
    var r := Commitment(env, v, pubkey, auth).value;
    assert 0 < env.order(v) <= Pow(256, 32);
    SameBytes(FromBE(env.sha256(r + ctx + pubkey)), FromBE(env.sha256(r + ctx' + pubkey)), env.order(v));
    if r + ctx + pubkey == r + ctx' + pubkey { SameMiddle(r, ctx, ctx', pubkey); }
  }

  /** The point and token of a swap commit that succeeded or drew its nonce. */
  predicate SwapPassed(run: Run, n: nat)
    requires n < |run.evs| && |run.replies| == |run.evs|
  {
    run.evs[n].Apdu? && run.evs[n].ins == 0x13 && Opens(run, n)
  }

  lemma SwapFacts(env: CardEnv, st: CardState, ev: Event)
    requires env.Valid() && Inv(env, st) && ev.Apdu? && ev.ins == 0x13 && Opened(ev, Step(env, st, ev).reply)
    ensures st.key.Some? && st.swapKey.Some?
    ensures var g := G1Bytes(st.key.value.version);
            |ev.data| == 2 * g + 64
            && SchnorrAuth(env, st.key.value.version, st.swapKey.value, ev.data[g..2 * g], ev.data[2 * g..])
               == Some(true)
  {
  }

  /** In every run: a swap token opens sessions for one basename only, or shows a collision. */
  lemma TokenForOneBasename(env: CardEnv, run: Run, i: nat, j: nat)
    requires IsRun(env, run) && i <= j < |run.evs| && SwapPassed(run, i) && SwapPassed(run, j)
    requires run.states[i].swapKey == run.states[j].swapKey
    ensures run.states[i].key.Some? && run.states[j].key == run.states[i].key && run.states[i].swapKey.Some?
    ensures var v := run.states[i].key.value.version;
            var g, pk := G1Bytes(v), run.states[i].swapKey.value;
            && |run.evs[i].data| == |run.evs[j].data| == 2 * g + 64
            && (run.evs[i].data[2 * g..] == run.evs[j].data[2 * g..]
                && run.evs[i].data[g..2 * g] != run.evs[j].data[g..2 * g]
                ==> var r := Commitment(env, v, pk, run.evs[i].data[2 * g..]);
                    r.Some? && Collide(env, v, r.value + run.evs[i].data[g..2 * g] + pk,
                                       r.value + run.evs[j].data[g..2 * g] + pk))
  {
    RunLegal(env, run, i);
    RunLegal(env, run, j);
    SwapFacts(env, run.states[i], run.evs[i]);
    SwapFacts(env, run.states[j], run.evs[j]);
    FixedForLife(env, run, i, j);
    var v := run.states[i].key.value.version;
    var g, a, b := G1Bytes(v), run.evs[i].data, run.evs[j].data;
    if a[2 * g..] == b[2 * g..] && a[g..2 * g] != b[g..2 * g] {
      AuthBinds(env, v, run.states[i].swapKey.value, a[g..2 * g], b[g..2 * g], a[2 * g..]);
    }
  }

  lemma ResetFacts(env: CardEnv, run: Run, n: nat)
    requires IsRun(env, run) && n < |run.evs| && Resets(run, n) && run.states[n].resetKey.Some?
    ensures run.states[n].key.Some? && |run.evs[n].data| == 68
    ensures SchnorrAuth(env, run.states[n].key.value.version, run.states[n].resetKey.value, run.evs[n].data[..4],
                        run.evs[n].data[4..]) == Some(true)
    ensures run.states[n].epoch < FromBE(run.evs[n].data[..4]) == run.states[n + 1].epoch
  {
    RunLegal(env, run, n);
    ResetCommand(env, run.states[n], run.evs[n]);
    ResettingEpochs(env, run, n);
  }

  lemma {:induction false} EpochGrows(env: CardEnv, run: Run, i: nat, j: nat)
    requires IsRun(env, run) && i <= j <= |run.evs|
    ensures run.states[i].epoch <= run.states[j].epoch
  {
    if i < j {
      EpochGrows(env, run, i, j - 1);
      EpochMoves(env, run, j - 1);
    }
  }

  /** In every run: a reset signature resets the filter once, or shows a collision. */
  lemma ResetsOnce(env: CardEnv, run: Run, i: nat, j: nat)
    requires IsRun(env, run) && i < j < |run.evs| && Resets(run, i) && Resets(run, j)
    requires run.states[i].resetKey.Some? && run.states[j].resetKey == run.states[i].resetKey
    ensures |run.evs[i].data| == |run.evs[j].data| == 68 && run.evs[i].data[..4] != run.evs[j].data[..4]
    ensures run.states[i].key.Some?
    ensures run.evs[i].data[4..] == run.evs[j].data[4..] ==>
              var v, pk := run.states[i].key.value.version, run.states[i].resetKey.value;
              var r := Commitment(env, v, pk, run.evs[i].data[4..]);
              r.Some? && Collide(env, v, r.value + run.evs[i].data[..4] + pk, r.value + run.evs[j].data[..4] + pk)
  {
    ResetFacts(env, run, i);
    ResetFacts(env, run, j);
    EpochGrows(env, run, i + 1, j);
    FixedForLife(env, run, i, j);
    if run.evs[i].data[4..] == run.evs[j].data[4..] {
      AuthBinds(env, run.states[i].key.value.version, run.states[i].resetKey.value, run.evs[i].data[..4],
                run.evs[j].data[..4], run.evs[i].data[4..]);
    }
  }

  // ----- The host's check -----

  /** The host's check, for every input: all four strings decode, and the challenge is the hash of
      the commitment s - pk*c, the basename point and the public key. */
  lemma HostAuthIff(su: Suite, swapPk: Bytes, bsnBase: Bytes, auth: SwapAuthorization)
    requires su.Valid()
    ensures SwapAuthVerify(su, swapPk, bsnBase, auth)
       <==> match (DeserializeG1(su, swapPk), DeserializeG1(su, bsnBase),
                   DeserializeScalar(su, auth.c), DeserializeScalar(su, auth.s))
            case (Some(pk), Some(bsn), Some(c), Some(s)) =>
              c == su.hashToScalar(su.encG1(Minus(s, su.Mul(pk, c), su.q)) + su.encG1(bsn) + su.encG1(pk))
            case _ => false
  {
    match (DeserializeG1(su, swapPk), DeserializeG1(su, bsnBase),
           DeserializeScalar(su, auth.c), DeserializeScalar(su, auth.s))
    case (Some(pk), Some(bsn), Some(c), Some(s)) =>
      SubtractAsAdd(su.Mul(1, s), pk, c, su.q);
      TimesOne(s, su.q);
    case _ =>
  }

  /** A token that the host accepts for two basename points shows a collision. */
  lemma HostTokenBinds(su: Suite, swapPk: Bytes, base: Bytes, base': Bytes, auth: SwapAuthorization)
    requires su.Valid() && SwapAuthVerify(su, swapPk, base, auth) && SwapAuthVerify(su, swapPk, base', auth)
    ensures var pk, bsn, bsn' := DeserializeG1(su, swapPk), DeserializeG1(su, base), DeserializeG1(su, base');
            var c, s := DeserializeScalar(su, auth.c), DeserializeScalar(su, auth.s);
            && pk.Some? && bsn.Some? && bsn'.Some? && c.Some? && s.Some?
            && var r := su.encG1(Minus(s.value, su.Mul(pk.value, c.value), su.q));
               var d, d' := r + su.encG1(bsn.value) + su.encG1(pk.value), r + su.encG1(bsn'.value) + su.encG1(pk.value);
               su.hashToScalar(d) == su.hashToScalar(d') && (d == d' ==> bsn == bsn')
  {
    HostAuthIff(su, swapPk, base, auth);
    HostAuthIff(su, swapPk, base', auth);
    var pk, bsn, bsn' := DeserializeG1(su, swapPk).value, DeserializeG1(su, base).value, DeserializeG1(su, base').value;
    var c, s := DeserializeScalar(su, auth.c).value, DeserializeScalar(su, auth.s).value;
    var r := su.encG1(Minus(s, su.Mul(pk, c), su.q));
    if r + su.encG1(bsn) + su.encG1(pk) == r + su.encG1(bsn') + su.encG1(pk) {
      SameMiddle(r, su.encG1(bsn), su.encG1(bsn'), su.encG1(pk));
      assert su.decG1(su.encG1(bsn)) == Some(bsn) && su.decG1(su.encG1(bsn')) == Some(bsn');
    }
  }
}
