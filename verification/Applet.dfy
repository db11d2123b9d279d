/** The applet object: persistent and transient fields, one shared APDU buffer that every handler
    overwrites, and one method per command. Each is proved against CardSpec's step. */
module Applet {
  import opened Options
  import opened Versions
  import opened Bytes
  import BloomFilter
  import opened CardSpec
  import opened CardRuns

  datatype SessionType = SESSION_NONE | SESSION_SIGN | SESSION_JOIN

  /** A write at [g, 2g) seen through a read at [5+g, 5+2g). */
  lemma OverlapRead(b: Bytes, g: nat, kCard: Bytes)
    requires |kCard| == g && OFFSET_CDATA <= g && OFFSET_CDATA + 2 * g <= |b|
    ensures Splice(b, g, kCard)[OFFSET_CDATA + g..OFFSET_CDATA + 2 * g]
         == Overlaid(kCard, b[OFFSET_CDATA + g..OFFSET_CDATA + 2 * g])
  {
  }

  lemma TwoAfter(b: Bytes, u: Bytes, k: Bytes, t: Bytes)
    requires |u| == |k| == |t| && 3 * |u| <= |b| && b[..|u|] == u
    ensures Splice(Splice(b, |u|, k), 2 * |u|, t)[..3 * |u|] == u + k + t
  {
  }

  lemma CommitFields(b: Bytes, lc: nat, g: nat, mode: CommitMode)
    requires OFFSET_CDATA + lc <= |b|
    requires lc == if mode.Plain? then g else if mode.Basename? then 2 * g else 2 * g + SWAP_AUTH_BYTES
    ensures var data := b[OFFSET_CDATA..OFFSET_CDATA + lc];
            && data[..g] == b[OFFSET_CDATA..OFFSET_CDATA + g]
            && (!mode.Plain? ==> data[g..2 * g] == b[OFFSET_CDATA + g..OFFSET_CDATA + 2 * g])
            && (!mode.Plain? ==> data[2 * g..] == b[OFFSET_CDATA + 2 * g..OFFSET_CDATA + lc])
  {
    SubSlice(b, OFFSET_CDATA, OFFSET_CDATA + lc, 0, g);
    if !mode.Plain? {
      SubSlice(b, OFFSET_CDATA, OFFSET_CDATA + lc, g, 2 * g);
      SubSlice(b, OFFSET_CDATA, OFFSET_CDATA + lc, 2 * g, lc);
    }
  }

  class BrioletteApplet {
    const env: CardEnv
    const buffer: array<Byte>
    const bloomFilter: BloomFilter.BloomFilter

    // Persistent
    var keyInitialized: bool
    var activeCurveVersion: Version
    var cardSk: nat
    var swapPubkeySet: bool
    var swapPubkey: Bytes
    var resetPubkeySet: bool
    var resetPubkey: Bytes
    var personalized: bool
    var mfrKeyGenerated: bool
    var mfrCertSet: bool
    var mfrCert: Bytes

    // Transient, cleared on deselect
    var rCard: nat
    var sessionType: SessionType

    ghost predicate Valid()
      reads this, buffer, bloomFilter, bloomFilter.bits
    {
      && env.Valid() && buffer.Length == 261
      && bloomFilter.Valid() && bloomFilter.sha256 == env.sha256
      && Inv(env, State())
    }

    /** The state machine's view of the fields. */
    ghost function State(): CardState
      reads this, bloomFilter, bloomFilter.bits
      requires bloomFilter.Valid()
    {
      CardState(
        if keyInitialized then Some(CardKey(activeCurveVersion, cardSk)) else None,
        match sessionType
          case SESSION_NONE => NoSession
          case SESSION_SIGN => Open(Sign, rCard)
          case SESSION_JOIN => Open(Join, rCard),
        bloomFilter.Contents(), bloomFilter.epochCounter,
        if swapPubkeySet then Some(swapPubkey) else None,
        if resetPubkeySet then Some(resetPubkey) else None,
        personalized, mfrKeyGenerated, if mfrCertSet then Some(mfrCert) else None)
    }

    ghost function Command(lc: nat, rnd: nat): Event
      reads buffer
      requires buffer.Length == 261 && OFFSET_CDATA + lc <= 261
    {
      Apdu(buffer[0], buffer[1], buffer[2], buffer[OFFSET_CDATA..OFFSET_CDATA + lc], rnd)
    }

    constructor (env: CardEnv)
      requires env.Valid()
      ensures Valid() && this.env == env && State() == INSTALLED
      ensures fresh(buffer) && fresh(bloomFilter) && fresh(bloomFilter.bits)
    {
      this.env := env;
      buffer := new Byte[261](i => 0);
      bloomFilter := new BloomFilter.BloomFilter(env.sha256);
      keyInitialized, activeCurveVersion, cardSk := false, BN254, 0;
      swapPubkeySet, swapPubkey, resetPubkeySet, resetPubkey := false, [], false, [];
      personalized, mfrKeyGenerated, mfrCertSet, mfrCert := false, false, false, [];
      rCard, sessionType := 0, SESSION_NONE;
    }

    /** Clearing transient memory when the applet is deselected. */
    method DeselectApplet()
      requires Valid()
      modifies this`rCard, this`sessionType
      ensures Valid() && State() == Step(env, old(State()), Deselect).state
    {
      rCard, sessionType := 0, SESSION_NONE;
    }

    /** ecPointMul from the buffer into the buffer; false when the arithmetic throws. */
    method EcPointMul(pointOff: nat, k: nat, outOff: nat) returns (ok: bool)
      requires env.Valid() && keyInitialized && buffer.Length == 261
      requires pointOff + G1Bytes(activeCurveVersion) <= 261 && outOff + G1Bytes(activeCurveVersion) <= 261
      modifies buffer
      ensures var out := env.mul(activeCurveVersion,
                                 old(buffer[..][pointOff..pointOff + G1Bytes(activeCurveVersion)]), k);
              && ok == out.Some?
              && buffer[..] == if ok then Splice(old(buffer[..]), outOff, out.value) else old(buffer[..])
    {
      var out := env.mul(activeCurveVersion, buffer[pointOff..pointOff + G1Bytes(activeCurveVersion)], k);
      if out.None? { return false; }
      CopyInto(out.value, buffer, outOff);
      ok := true;
    }

    method ProcessGenerateKey(v: Version, rnd: nat) returns (reply: Reply)
      requires Valid()
      modifies this`keyInitialized, this`activeCurveVersion, this`cardSk
      ensures Outcome(State(), reply) == GenerateKeyStep(env, old(State()), v, rnd)
    {
      if keyInitialized { return Sw(SW_CONDITIONS_NOT_SATISFIED); }
      activeCurveVersion := v;
      cardSk := rnd % env.order(v);
      keyInitialized := true;
      reply := Ok([]);
    }

    method ProcessPublicKeyShare(lc: nat) returns (reply: Reply)
      requires Valid() && keyInitialized && OFFSET_CDATA + lc <= 261
      modifies buffer
      ensures Outcome(State(), reply)
           == PublicKeyShareStep(env, old(State()), old(buffer[..][OFFSET_CDATA..OFFSET_CDATA + lc]))
    {
      ghost var before := buffer[..];
      var g := G1Bytes(activeCurveVersion);
      if lc != g { return Sw(SW_WRONG_LENGTH); }
      var ok := EcPointMul(OFFSET_CDATA, cardSk, 0);
      if !ok { return Fault(false); }
      SpliceRead(before, 0, env.mul(activeCurveVersion, before[OFFSET_CDATA..OFFSET_CDATA + lc], cardSk).value);
      reply := Ok(buffer[..g]);
    }

    /** The two multiples of the basename: the first is written over the bytes the second reads. */
    method WriteNymCommitment(ghost u: Bytes) returns (ok: bool)
      requires env.Valid() && keyInitialized && buffer.Length == 261
      requires |u| == G1Bytes(activeCurveVersion) && buffer[..][..|u|] == u
      modifies buffer
      ensures var v, g := activeCurveVersion, G1Bytes(activeCurveVersion);
              var bsn := old(buffer[..])[OFFSET_CDATA + g..OFFSET_CDATA + 2 * g];
              var k := env.mul(v, bsn, cardSk);
              var third := if k.Some? then env.mul(v, Overlaid(k.value, bsn), rCard) else None;
              ok == third.Some? && (ok ==> buffer[..][..3 * g] == u + k.value + third.value)
    {
      var g := G1Bytes(activeCurveVersion);
      var bsnOffset := OFFSET_CDATA + g;
      ghost var b1 := buffer[..];
      ok := EcPointMul(bsnOffset, cardSk, g);
      if !ok { return; }
      ghost var kCard := env.mul(activeCurveVersion, b1[bsnOffset..bsnOffset + g], cardSk).value;
      ghost var b2 := buffer[..];
      OverlapRead(b1, g, kCard);
      ok := EcPointMul(bsnOffset, rCard, 2 * g);
      if !ok { return; }
      TwoAfter(b1, u, kCard, env.mul(activeCurveVersion, b2[bsnOffset..bsnOffset + g], rCard).value);
    }

    /** The three multiples of SIGN_COMMIT, each written over the buffer the next one reads. */
    method WriteCommitment(hasBasename: bool) returns (ok: bool)
      requires env.Valid() && keyInitialized && buffer.Length == 261
      modifies buffer
      ensures var g := G1Bytes(activeCurveVersion);
              var b := old(buffer[..]);
              var bsn := if hasBasename then Some(b[OFFSET_CDATA + g..OFFSET_CDATA + 2 * g]) else None;
              var out := CommitBytes(env, CardKey(activeCurveVersion, cardSk), b[OFFSET_CDATA..OFFSET_CDATA + g],
                                     bsn, rCard);
              ok == out.Some? && (ok ==> buffer[..][..|out.value|] == out.value)
    {
      var g := G1Bytes(activeCurveVersion);
      ghost var b0 := buffer[..];
      ok := EcPointMul(OFFSET_CDATA, rCard, 0);
      if !ok { return; }
      ghost var u := env.mul(activeCurveVersion, b0[OFFSET_CDATA..OFFSET_CDATA + g], rCard).value;
      SpliceRead(b0, 0, u);
      if !hasBasename { return; }
      SpliceElsewhere(b0, 0, u, OFFSET_CDATA + g, OFFSET_CDATA + 2 * g);
      ok := WriteNymCommitment(u);
    }

    /** The checks before a nonce is drawn; a new basename is entered in the filter. */
    method CheckCommit(lc: nat, mode: CommitMode) returns (refusal: Option<Reply>)
      requires Valid() && keyInitialized && OFFSET_CDATA + lc <= 261
      modifies bloomFilter.bits
      ensures bloomFilter.Valid()
      ensures var st, data := old(State()), buffer[..][OFFSET_CDATA..OFFSET_CDATA + lc];
              && refusal == CommitRefusal(env, st, mode, data)
              && (refusal.None? ==> |data| == CommitLength(activeCurveVersion, mode))
              && bloomFilter.Contents() == if refusal.None? then Entered(env, st, mode, data).bloom else st.bloom
    {
      ghost var data := buffer[..][OFFSET_CDATA..OFFSET_CDATA + lc];
      var g := G1Bytes(activeCurveVersion);
      if lc != CommitLength(activeCurveVersion, mode) { return Some(Sw(SW_WRONG_LENGTH)); }
      CommitFields(buffer[..], lc, g, mode);
      var bsnOffset := OFFSET_CDATA + g;
      if mode.Swap? {
        if !swapPubkeySet { return Some(Sw(SW_NO_SWAP_KEY)); }
        var authOffset := bsnOffset + g;
        var valid := SchnorrAuth(env, activeCurveVersion, swapPubkey, buffer[bsnOffset..authOffset],
                                 buffer[authOffset..authOffset + SWAP_AUTH_BYTES]);
        if valid.None? { return Some(Fault(false)); }
        if !valid.value { return Some(Sw(SW_SWAP_AUTH_FAILED)); }
      } else if mode.Basename? {
        var used := bloomFilter.CheckAndAdd(buffer[bsnOffset..bsnOffset + g]);
        if used { return Some(Sw(SW_BASENAME_USED)); }
      }
      refusal := None;
    }

    /** The fresh nonce and its session, then the multiples. */
    method Commit(lc: nat, mode: CommitMode, rnd: nat) returns (reply: Reply)
      requires env.Valid() && bloomFilter.Valid() && buffer.Length == 261
      requires keyInitialized && OFFSET_CDATA + lc <= 261 && lc == CommitLength(activeCurveVersion, mode)
      modifies buffer, this`rCard, this`sessionType
      ensures Outcome(State(), reply)
           == CommitStep(env, old(State()), mode, old(buffer[..][OFFSET_CDATA..OFFSET_CDATA + lc]), rnd)
    {
      rCard := rnd % env.order(activeCurveVersion);
      sessionType := SESSION_SIGN;
      var g := G1Bytes(activeCurveVersion);
      CommitFields(buffer[..], lc, g, mode);
      var ok := WriteCommitment(!mode.Plain?);
      if !ok { return Fault(true); }
      reply := Ok(buffer[..if mode.Plain? then g else 3 * g]);
    }

    method ProcessSignCommit(lc: nat, mode: CommitMode, rnd: nat) returns (reply: Reply)
      requires Valid() && keyInitialized && OFFSET_CDATA + lc <= 261
      modifies buffer, this`personalized, this`rCard, this`sessionType, bloomFilter.bits
      ensures bloomFilter.Valid()
      ensures Outcome(State(), reply)
           == SignCommitStep(env, old(State()), mode, old(buffer[..][OFFSET_CDATA..OFFSET_CDATA + lc]), rnd)
    {
      var refusal := CheckCommit(lc, mode);
      personalized := true;
      if refusal.Some? { return refusal.value; }
      reply := Commit(lc, mode, rnd);
    }

    method ProcessJoinCommit(lc: nat, rnd: nat) returns (reply: Reply)
      requires Valid() && keyInitialized && OFFSET_CDATA + lc <= 261
      modifies buffer, this`personalized, this`rCard, this`sessionType
      ensures Outcome(State(), reply)
           == JoinCommitStep(env, old(State()), old(buffer[..][OFFSET_CDATA..OFFSET_CDATA + lc]), rnd)
    {
      ghost var before := buffer[..];
      var g := G1Bytes(activeCurveVersion);
      personalized := true;
      if lc != g { return Sw(SW_WRONG_LENGTH); }
      rCard := rnd % env.order(activeCurveVersion);
      sessionType := SESSION_JOIN;
      var ok := EcPointMul(OFFSET_CDATA, rCard, 0);
      if !ok { return Fault(true); }
      SpliceRead(before, 0, env.mul(activeCurveVersion, before[OFFSET_CDATA..OFFSET_CDATA + lc], rCard).value);
      reply := Ok(buffer[..g]);
    }

    /** SIGN_RESPOND and JOIN_RESPOND, which differ in the session type they ask for. */
    method ProcessRespond(lc: nat, expected: SessionType) returns (reply: Reply)
      requires Valid() && keyInitialized && OFFSET_CDATA + lc <= 261 && expected != SESSION_NONE
      modifies buffer, this`rCard, this`sessionType
      ensures Outcome(State(), reply)
           == RespondStep(env, old(State()), if expected.SESSION_SIGN? then Sign else Join,
                          old(buffer[..][OFFSET_CDATA..OFFSET_CDATA + lc]))
    {
      if sessionType != expected { return Sw(SW_CONDITIONS_NOT_SATISFIED); }
      if lc != FR_BYTES { return Sw(SW_WRONG_LENGTH); }
      var c := FromBE(buffer[OFFSET_CDATA..OFFSET_CDATA + lc]);
      ghost var before := buffer[..];
      SpliceRead(before, 0, ToBE(Response(rCard, c, cardSk, env.order(activeCurveVersion)), FR_BYTES));
      WriteCoord(buffer, 0, Response(rCard, c, cardSk, env.order(activeCurveVersion)), FR_BYTES);
      rCard := 0;
      sessionType := SESSION_NONE;
      reply := Ok(buffer[..FR_BYTES]);
    }

    method ProcessResetBloom(lc: nat) returns (reply: Reply)
      requires Valid() && OFFSET_CDATA + lc <= 261
      modifies bloomFilter, bloomFilter.bits
      ensures bloomFilter.Valid()
      ensures Outcome(State(), reply) == ResetStep(env, old(State()), buffer[OFFSET_CDATA..OFFSET_CDATA + lc])
    {
      ghost var data := buffer[OFFSET_CDATA..OFFSET_CDATA + lc];
      if lc != (if resetPubkeySet then 4 + SWAP_AUTH_BYTES else 4) { return Sw(SW_WRONG_LENGTH); }
      assert buffer[5..9] == data[..4];
      var newEpoch := SignedInt(buffer[5..9]);
      if resetPubkeySet {
        assert buffer[9..73] == data[4..];
        var valid := SchnorrAuth(env, activeCurveVersion, resetPubkey, buffer[5..9], buffer[9..73]);
        if valid.None? { return Fault(false); }
        if !valid.value { return Sw(SW_RESET_AUTH_FAILED); }
      }
      var ok := bloomFilter.ResetForEpoch(newEpoch);
      if !ok { return Sw(SW_CONDITIONS_NOT_SATISFIED); }
      reply := Ok([]);
    }

    method ProcessSetPubkey(lc: nat, swap: bool) returns (reply: Reply)
      requires Valid() && keyInitialized && OFFSET_CDATA + lc <= 261
      modifies this`swapPubkey, this`swapPubkeySet, this`resetPubkey, this`resetPubkeySet
      ensures Outcome(State(), reply) == SetKeyStep(old(State()), swap, buffer[OFFSET_CDATA..OFFSET_CDATA + lc])
    {
      if personalized { return Sw(SW_PERSONALIZED); }
      if lc != G1Bytes(activeCurveVersion) { return Sw(SW_WRONG_LENGTH); }
      if swap {
        swapPubkey, swapPubkeySet := buffer[OFFSET_CDATA..OFFSET_CDATA + lc], true;
      } else {
        resetPubkey, resetPubkeySet := buffer[OFFSET_CDATA..OFFSET_CDATA + lc], true;
      }
      reply := Ok([]);
    }

    /** The flag byte, one bit per fact. */
    method StatusByte() returns (flags: Byte)
      requires Valid()
      ensures flags == StatusFlags(State())
    {
      flags := 0;
      if keyInitialized { flags := flags + 0x01; }
      if sessionType != SESSION_NONE { flags := flags + 0x02; }
      if swapPubkeySet { flags := flags + 0x04; }
      if resetPubkeySet { flags := flags + 0x08; }
      if personalized { flags := flags + 0x10; }
      if mfrKeyGenerated { flags := flags + 0x20; }
      if mfrCertSet { flags := flags + 0x40; }
    }

    method ProcessGetStatus() returns (reply: Reply)
      requires Valid()
      modifies buffer
      ensures Outcome(State(), reply) == StatusStep(old(State()))
    {
      var flags := StatusByte();
      buffer[0] := flags;
      WriteCoord(buffer, 1, bloomFilter.epochCounter % 0x1_0000_0000, 4);
      buffer[5] := if keyInitialized then VersionByte(activeCurveVersion) else 0;
      assert buffer[..6] == [buffer[0]] + buffer[1..5] + [buffer[5]];
      reply := Ok(buffer[..6]);
    }

    method ProcessMfrGenerateKey() returns (reply: Reply)
      requires Valid()
      modifies this`mfrKeyGenerated, buffer
      ensures Outcome(State(), reply) == MfrStep(env, old(State()), 0x60, [])
    {
      if mfrKeyGenerated { return Sw(SW_CONDITIONS_NOT_SATISFIED); }
      mfrKeyGenerated := true;
      ghost var before := buffer[..];
      CopyInto(env.mfrPublicKey, buffer, 0);
      SpliceRead(before, 0, env.mfrPublicKey);
      reply := Ok(buffer[..P256_POINT_BYTES]);
    }

    method ProcessMfrSetCert(lc: nat) returns (reply: Reply)
      requires Valid() && OFFSET_CDATA + lc <= 261
      modifies this`mfrCert, this`mfrCertSet
      ensures Outcome(State(), reply) == MfrStep(env, old(State()), 0x61, buffer[..][OFFSET_CDATA..OFFSET_CDATA + lc])
    {
      if !mfrKeyGenerated { return Sw(SW_MFR_NOT_READY); }
      if personalized { return Sw(SW_PERSONALIZED); }
      if lc < 1 || lc > MAX_DER_BYTES { return Sw(SW_WRONG_LENGTH); }
      mfrCert, mfrCertSet := buffer[OFFSET_CDATA..OFFSET_CDATA + lc], true;
      reply := Ok([]);
    }

    /** Appends one field to what the buffer already holds. */
    method Append(ghost prefix: Bytes, off: nat, field: Bytes) returns (off': nat)
      requires off + |field| <= buffer.Length && off == |prefix| && buffer[..][..off] == prefix
      modifies buffer
      ensures off' == off + |field| && buffer[..][..off'] == prefix + field
    {
      ghost var before := buffer[..];
      CopyInto(field, buffer, off);
      off' := off + |field|;
      assert Splice(before, off, field)[..off'] == before[..off] + field;
    }

    /** The attestation, written over the challenge it signs. */
    method WriteAttestation() returns (length: nat)
      requires env.Valid() && buffer.Length == 261 && |mfrCert| <= MAX_DER_BYTES
      modifies buffer
      ensures length <= 261
      ensures buffer[..][..length] == Attestation(env, mfrCert, old(buffer[..][OFFSET_CDATA..OFFSET_CDATA + 32]))
    {
      var signature := env.mfrSign(buffer[OFFSET_CDATA..OFFSET_CDATA + 32]);
      var off := Append([], 0, [|signature|]);
      off := Append([|signature|], off, signature);
      off := Append([|signature|] + signature, off, [|mfrCert|]);
      off := Append([|signature|] + signature + [|mfrCert|], off, mfrCert);
      length := Append([|signature|] + signature + [|mfrCert|] + mfrCert, off, env.mfrPublicKey);
      assert [] + [|signature|] == [|signature|];
    }

    method ProcessMfrAttest(lc: nat) returns (reply: Reply)
      requires Valid() && OFFSET_CDATA + lc <= 261
      modifies buffer
      ensures Outcome(State(), reply)
           == MfrStep(env, old(State()), 0x62, old(buffer[..][OFFSET_CDATA..OFFSET_CDATA + lc]))
    {
      if !mfrKeyGenerated { return Sw(SW_MFR_NOT_READY); }
      if !mfrCertSet { return Sw(SW_MFR_NO_CERT); }
      if lc != 32 { return Sw(SW_WRONG_LENGTH); }
      var length := WriteAttestation();
      reply := Ok(buffer[..length]);
    }

    /** process: class byte and version checks, then the command switch. */
    method Process(lc: nat, rnd: nat) returns (reply: Reply)
      requires Valid() && OFFSET_CDATA + lc <= 261
      modifies this, buffer, bloomFilter, bloomFilter.bits
      ensures Valid()
      ensures Outcome(State(), reply) == Step(env, old(State()), old(Command(lc, rnd)))
    {
      ghost var st, ev := State(), Command(lc, rnd);
      StepLegal(env, st, ev);
      var cla, ins, p1 := buffer[0], buffer[1], buffer[2];
      if cla != 0x80 { return Sw(SW_CLA_NOT_SUPPORTED); }
      if !CurveIndependent(ins) {
        if ins == 0x01 {
          if p1 != 0 && p1 != 1 { return Sw(SW_BAD_VERSION); }
        } else {
          if !keyInitialized { return Sw(SW_CONDITIONS_NOT_SATISFIED); }
          if p1 != VersionByte(activeCurveVersion) { return Sw(SW_BAD_VERSION); }
        }
      }
      assert Step(env, st, ev) == Handle(env, st, ev);
      if ins == 0x01 { reply := ProcessGenerateKey(if p1 == 0 then BN254 else BLS381, rnd); }
      else if ins == 0x02 { reply := ProcessPublicKeyShare(lc); }
      else if ins == 0x10 { reply := ProcessSignCommit(lc, Plain, rnd); }
      else if ins == 0x11 { reply := ProcessSignCommit(lc, Basename, rnd); }
      else if ins == 0x13 { reply := ProcessSignCommit(lc, Swap, rnd); }
      else if ins == 0x12 { reply := ProcessRespond(lc, SESSION_SIGN); }
      else if ins == 0x20 { reply := ProcessJoinCommit(lc, rnd); }
      else if ins == 0x21 { reply := ProcessRespond(lc, SESSION_JOIN); }
      else if ins == 0x30 { reply := ProcessResetBloom(lc); }
      else if ins == 0x31 { reply := ProcessSetPubkey(lc, true); }
      else if ins == 0x32 { reply := ProcessSetPubkey(lc, false); }
      else if ins == 0x40 { reply := ProcessGetStatus(); }
      else if ins == 0x60 { reply := ProcessMfrGenerateKey(); }
      else if ins == 0x61 { reply := ProcessMfrSetCert(lc); }
      else if ins == 0x62 { reply := ProcessMfrAttest(lc); }
      else { reply := Sw(SW_INS_NOT_SUPPORTED); }
    }
  }
}
