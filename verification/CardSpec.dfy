/** The card as a state machine: what each command does to the card's state and what it answers. */
module CardSpec {
  import opened Options
  import opened Versions
  import opened Bytes
  import opened Modular
  import BloomFilter

  const FR_BYTES: nat := 32
  const SWAP_AUTH_BYTES: nat := 64
  const OFFSET_CDATA: nat := 5
  const P256_POINT_BYTES: nat := 65
  const MAX_DER_BYTES: nat := 72

  const SW_WRONG_LENGTH: nat := 0x6700
  const SW_CONDITIONS_NOT_SATISFIED: nat := 0x6985
  const SW_BASENAME_USED: nat := 0x6A84
  const SW_SWAP_AUTH_FAILED: nat := 0x6A85
  const SW_BAD_VERSION: nat := 0x6A86
  const SW_NO_SWAP_KEY: nat := 0x6A87
  const SW_RESET_AUTH_FAILED: nat := 0x6A88
  const SW_PERSONALIZED: nat := 0x6A8A
  const SW_MFR_NOT_READY: nat := 0x6A8B
  const SW_MFR_NO_CERT: nat := 0x6A8C
  const SW_INS_NOT_SUPPORTED: nat := 0x6D00
  const SW_CLA_NOT_SUPPORTED: nat := 0x6E00

  function G1Bytes(v: Version): nat { if v.BN254? then 65 else 48 }

  /** The arithmetic and hash the applet calls. Point operations may end in an uncaught
      arithmetic exception, here None. */
  datatype CardEnv = CardEnv(
    order: Version -> nat,
    generator: Version -> Bytes,
    mul: (Version, Bytes, nat) -> Option<Bytes>,
    add: (Version, Bytes, Bytes) -> Option<Bytes>,
    sha256: Bytes -> Bytes,
    mfrPublicKey: Bytes,
    mfrSign: Bytes -> Bytes)
  {
    ghost predicate Valid() {
      && (forall v {:trigger order(v)} :: 0 < order(v) <= Pow(256, 32))
      && (forall v {:trigger generator(v)} :: |generator(v)| == G1Bytes(v))
      && (forall v, s, k {:trigger mul(v, s, k)} :: mul(v, s, k).Some? ==> |mul(v, s, k).value| == G1Bytes(v))
      && (forall v, s, t {:trigger add(v, s, t)} :: add(v, s, t).Some? ==> |add(v, s, t).value| == G1Bytes(v))
      && (forall d {:trigger sha256(d)} :: |sha256(d)| == 32)
      && |mfrPublicKey| == P256_POINT_BYTES && (forall d {:trigger mfrSign(d)} :: |mfrSign(d)| <= MAX_DER_BYTES)
    }
  }

  datatype SessionKind = Sign | Join
  datatype Session = NoSession | Open(kind: SessionKind, r: nat)
  datatype CardKey = CardKey(version: Version, sk: nat)

  datatype CardState = CardState(
    key: Option<CardKey>, session: Session, bloom: set<nat>, epoch: int,
    swapKey: Option<Bytes>, resetKey: Option<Bytes>, personalized: bool,
    mfrKeyGenerated: bool, mfrCert: Option<Bytes>)

  const INSTALLED := CardState(None, NoSession, {}, 0, None, None, false, false, None)

  /** Deselecting clears transient memory. rnd is what the generator yields if it is asked. */
  datatype Event = Deselect | Apdu(cla: Byte, ins: Byte, p1: Byte, data: Bytes, rnd: nat)

  /** Fault is an uncaught exception; it records whether a nonce had already been drawn. */
  datatype Reply = Ok(data: Bytes) | Sw(sw: nat) | Fault(drawn: bool)

  /** What the handlers rely on: CardRuns proves it of every run. */
  predicate Sane(st: CardState) {
    (st.resetKey.Some? ==> st.key.Some?) && (st.mfrCert.Some? ==> |st.mfrCert.value| <= MAX_DER_BYTES)
  }

  datatype Outcome = Outcome(state: CardState, reply: Reply)

  // ----- Schnorr authorisations -----

  /** verifySchnorrAuth; None when a point operation throws. */
  function SchnorrAuth(env: CardEnv, v: Version, pubkey: Bytes, ctx: Bytes, auth: Bytes): Option<bool>
    requires env.Valid() && |auth| == SWAP_AUTH_BYTES
  {
    var c, s := auth[..32], auth[32..];
    var order := env.order(v);
    match env.mul(v, env.generator(v), FromBE(s))
    case None => None
    case Some(gs) =>
      match env.mul(v, pubkey, (order - FromBE(c)) % order)
      case None => None
      case Some(pc) =>
        match env.add(v, gs, pc)
        case None => None
        case Some(r) => Some(ToBE(FromBE(env.sha256(r + ctx + pubkey)) % order, 32) == c)
  }

  // ----- Handlers -----

  function GenerateKeyStep(env: CardEnv, st: CardState, v: Version, rnd: nat): Outcome
    requires env.Valid()
  {
    if st.key.Some? then Outcome(st, Sw(SW_CONDITIONS_NOT_SATISFIED))
    else Outcome(st.(key := Some(CardKey(v, rnd % env.order(v)))), Ok([]))
  }

  function PublicKeyShareStep(env: CardEnv, st: CardState, data: Bytes): Outcome
    requires env.Valid() && st.key.Some?
  {
    var k := st.key.value;
    if |data| != G1Bytes(k.version) then Outcome(st, Sw(SW_WRONG_LENGTH)) else
    match env.mul(k.version, data, k.sk)
    case Some(q) => Outcome(st, Ok(q))
    case None => Outcome(st, Fault(false))
  }

  datatype CommitMode = Plain | Basename | Swap

  function CommitLength(v: Version, mode: CommitMode): nat {
    match mode
    case Plain => G1Bytes(v)
    case Basename => 2 * G1Bytes(v)
    case Swap => 2 * G1Bytes(v) + SWAP_AUTH_BYTES
  }

  /** What K_card written at [g, 2g) leaves of the basename point stored at [5+g, 5+2g). */
  function Overlaid(kCard: Bytes, bsnBase: Bytes): Bytes
    requires |kCard| == |bsnBase| >= OFFSET_CDATA
  {
    kCard[OFFSET_CDATA..] + bsnBase[|bsnBase| - OFFSET_CDATA..]
  }

  /** The commitment bytes: U_card, and with a basename K_card and a third multiple, taken of
      the overlaid bytes rather than of the basename point. */
  function CommitBytes(env: CardEnv, k: CardKey, s: Bytes, bsnBase: Option<Bytes>, r: nat): (out: Option<Bytes>)
    requires env.Valid() && (bsnBase.Some? ==> |bsnBase.value| == G1Bytes(k.version))
    ensures out.Some? ==> |out.value| == (if bsnBase.Some? then 3 else 1) * G1Bytes(k.version)
  {
    match env.mul(k.version, s, r)
    case None => None
    case Some(u) =>
      if bsnBase.None? then Some(u) else
      match env.mul(k.version, bsnBase.value, k.sk)
      case None => None
      case Some(kCard) =>
        match env.mul(k.version, Overlaid(kCard, bsnBase.value), r)
        case None => None
        case Some(third) => Some(u + kCard + third)
  }

  /** The checks before a nonce is drawn: None lets the commit proceed. */
  function CommitRefusal(env: CardEnv, st: CardState, mode: CommitMode, data: Bytes): Option<Reply>
    requires env.Valid() && st.key.Some?
  {
    var v := st.key.value.version;
    var g := G1Bytes(v);
    if |data| != CommitLength(v, mode) then Some(Sw(SW_WRONG_LENGTH)) else
    match mode
    case Plain => None
    case Basename =>
      if BloomFilter.Positions(env.sha256(data[g..])) <= st.bloom then Some(Sw(SW_BASENAME_USED)) else None
    case Swap =>
      if st.swapKey.None? then Some(Sw(SW_NO_SWAP_KEY)) else
      match SchnorrAuth(env, v, st.swapKey.value, data[g..2 * g], data[2 * g..])
      case None => Some(Fault(false))
      case Some(valid) => if valid then None else Some(Sw(SW_SWAP_AUTH_FAILED))
  }

  /** A nonce has been drawn for a session; its multiples are sent, unless computing them throws. */
  function DrawnFor(st: CardState, kind: SessionKind, r: nat, out: Option<Bytes>): Outcome {
    Outcome(st.(session := Open(kind, r)), if out.Some? then Ok(out.value) else Fault(true))
  }

  /** A commit that is let through marks the card and enters a basename in the filter. */
  function Entered(env: CardEnv, st: CardState, mode: CommitMode, data: Bytes): CardState
    requires env.Valid() && st.key.Some? && |data| >= G1Bytes(st.key.value.version)
  {
    var basename := data[G1Bytes(st.key.value.version)..];
    st.(personalized := true,
        bloom := if mode.Basename? then st.bloom + BloomFilter.Positions(env.sha256(basename)) else st.bloom)
  }

  function CommitStep(env: CardEnv, st: CardState, mode: CommitMode, data: Bytes, rnd: nat): Outcome
    requires env.Valid() && st.key.Some? && |data| == CommitLength(st.key.value.version, mode)
  {
    var k := st.key.value;
    var g, r := G1Bytes(k.version), rnd % env.order(k.version);
    DrawnFor(st, Sign, r, CommitBytes(env, k, data[..g], if mode.Plain? then None else Some(data[g..2 * g]), r))
  }

  function SignCommitStep(env: CardEnv, st: CardState, mode: CommitMode, data: Bytes, rnd: nat): Outcome
    requires env.Valid() && st.key.Some?
  {
    match CommitRefusal(env, st, mode, data)
    case Some(refusal) => Outcome(st.(personalized := true), refusal)
    case None => CommitStep(env, Entered(env, st, mode, data), mode, data, rnd)
  }

  function JoinCommitStep(env: CardEnv, st: CardState, data: Bytes, rnd: nat): Outcome
    requires env.Valid() && st.key.Some?
  {
    var k, st1 := st.key.value, st.(personalized := true);
    if |data| != G1Bytes(k.version) then Outcome(st1, Sw(SW_WRONG_LENGTH)) else
    var r := rnd % env.order(k.version);
    DrawnFor(st1, Join, r, env.mul(k.version, data, r))
  }

  /** The Schnorr response r + c*sk, for a 32-byte challenge that need not be reduced. */
  function Response(r: nat, c: nat, sk: nat, order: nat): nat
    requires order > 0
  {
    (r + c * sk) % order
  }

  function RespondStep(env: CardEnv, st: CardState, kind: SessionKind, data: Bytes): Outcome
    requires env.Valid() && st.key.Some?
  {
    var k := st.key.value;
    if st.session.NoSession? || st.session.kind != kind then Outcome(st, Sw(SW_CONDITIONS_NOT_SATISFIED))
    else if |data| != FR_BYTES then Outcome(st, Sw(SW_WRONG_LENGTH))
    else Outcome(st.(session := NoSession),
                 Ok(ToBE(Response(st.session.r, FromBE(data), k.sk, env.order(k.version)), FR_BYTES)))
  }

  /** Four bytes as a signed 32-bit integer. */
  function SignedInt(b: Bytes): int
    requires |b| == 4
  {
    var u := FromBE(b);
    if u < 0x8000_0000 then u else u - 0x1_0000_0000
  }

  function ResetStep(env: CardEnv, st: CardState, data: Bytes): Outcome
    requires env.Valid() && Sane(st)
  {
    if |data| != (if st.resetKey.Some? then 4 + SWAP_AUTH_BYTES else 4) then Outcome(st, Sw(SW_WRONG_LENGTH)) else
    var newEpoch := SignedInt(data[..4]);
    var auth := if st.resetKey.None? then Some(true)
                else SchnorrAuth(env, st.key.value.version, st.resetKey.value, data[..4], data[4..]);
    if auth.None? then Outcome(st, Fault(false))
    else if !auth.value then Outcome(st, Sw(SW_RESET_AUTH_FAILED))
    else if newEpoch <= st.epoch then Outcome(st, Sw(SW_CONDITIONS_NOT_SATISFIED))
    else Outcome(st.(epoch := newEpoch, bloom := {}), Ok([]))
  }

  function SetKeyStep(st: CardState, swap: bool, data: Bytes): Outcome
    requires st.key.Some?
  {
    if st.personalized then Outcome(st, Sw(SW_PERSONALIZED))
    else if |data| != G1Bytes(st.key.value.version) then Outcome(st, Sw(SW_WRONG_LENGTH))
    else if swap then Outcome(st.(swapKey := Some(data)), Ok([]))
    else Outcome(st.(resetKey := Some(data)), Ok([]))
  }

  function Flag(set_: bool, mask: Byte): int { if set_ then mask else 0 }

  function StatusFlags(st: CardState): (b: Byte) {
    Flag(st.key.Some?, 0x01) + Flag(st.session.Open?, 0x02) + Flag(st.swapKey.Some?, 0x04)
    + Flag(st.resetKey.Some?, 0x08) + Flag(st.personalized, 0x10)
    + Flag(st.mfrKeyGenerated, 0x20) + Flag(st.mfrCert.Some?, 0x40)
  }

  function VersionByte(v: Version): Byte { if v.BN254? then 0 else 1 }

  function StatusStep(st: CardState): Outcome {
    Outcome(st, Ok([StatusFlags(st)] + ToBE(st.epoch % 0x1_0000_0000, 4)
                   + [if st.key.Some? then VersionByte(st.key.value.version) else 0]))
  }

  /** What MFR_ATTEST answers: signature and certificate, each after its length, and the key. */
  function Attestation(env: CardEnv, cert: Bytes, challenge: Bytes): Bytes
    requires env.Valid() && |cert| <= MAX_DER_BYTES
  {
    [|env.mfrSign(challenge)|] + env.mfrSign(challenge) + [|cert|] + cert + env.mfrPublicKey
  }

  function MfrStep(env: CardEnv, st: CardState, ins: Byte, data: Bytes): Outcome
    requires env.Valid() && (st.mfrCert.Some? ==> |st.mfrCert.value| <= MAX_DER_BYTES)
  {
    if ins == 0x60 then
      if st.mfrKeyGenerated then Outcome(st, Sw(SW_CONDITIONS_NOT_SATISFIED))
      else Outcome(st.(mfrKeyGenerated := true), Ok(env.mfrPublicKey))
    else if !st.mfrKeyGenerated then Outcome(st, Sw(SW_MFR_NOT_READY))
    else if ins == 0x61 then
      if st.personalized then Outcome(st, Sw(SW_PERSONALIZED))
      else if |data| < 1 || |data| > MAX_DER_BYTES then Outcome(st, Sw(SW_WRONG_LENGTH))
      else Outcome(st.(mfrCert := Some(data)), Ok([]))
    else
      if st.mfrCert.None? then Outcome(st, Sw(SW_MFR_NO_CERT))
      else if |data| != 32 then Outcome(st, Sw(SW_WRONG_LENGTH))
      else Outcome(st, Ok(Attestation(env, st.mfrCert.value, data)))
  }

  // ----- Dispatch -----

  predicate CurveIndependent(ins: Byte) {
    ins == 0x30 || ins == 0x40 || ins == 0x60 || ins == 0x61 || ins == 0x62
  }

  function VersionRefusal(st: CardState, ins: Byte, p1: Byte): Option<nat> {
    if CurveIndependent(ins) then None
    else if ins == 0x01 then if p1 == 0 || p1 == 1 then None else Some(SW_BAD_VERSION)
    else if st.key.None? then Some(SW_CONDITIONS_NOT_SATISFIED)
    else if p1 != VersionByte(st.key.value.version) then Some(SW_BAD_VERSION)
    else None
  }

  function ProcessStep(env: CardEnv, st: CardState, a: Event): Outcome
    requires env.Valid() && a.Apdu? && Sane(st)
  {
    if a.cla != 0x80 then Outcome(st, Sw(SW_CLA_NOT_SUPPORTED)) else
    var refusal := VersionRefusal(st, a.ins, a.p1);
    if refusal.Some? then Outcome(st, Sw(refusal.value))
    else Handle(env, st, a)
  }

  /** The command switch, once class byte and curve version have been checked. */
  function Handle(env: CardEnv, st: CardState, a: Event): Outcome
    requires env.Valid() && a.Apdu? && Sane(st)
    requires VersionRefusal(st, a.ins, a.p1).None?
  {
    if a.ins == 0x01 then GenerateKeyStep(env, st, if a.p1 == 0 then BN254 else BLS381, a.rnd)
    else if a.ins == 0x02 then PublicKeyShareStep(env, st, a.data)
    else if a.ins == 0x10 then SignCommitStep(env, st, Plain, a.data, a.rnd)
    else if a.ins == 0x11 then SignCommitStep(env, st, Basename, a.data, a.rnd)
    else if a.ins == 0x13 then SignCommitStep(env, st, Swap, a.data, a.rnd)
    else if a.ins == 0x12 then RespondStep(env, st, Sign, a.data)
    else if a.ins == 0x20 then JoinCommitStep(env, st, a.data, a.rnd)
    else if a.ins == 0x21 then RespondStep(env, st, Join, a.data)
    else if a.ins == 0x30 then ResetStep(env, st, a.data)
    else if a.ins == 0x31 then SetKeyStep(st, true, a.data)
    else if a.ins == 0x32 then SetKeyStep(st, false, a.data)
    else if a.ins == 0x40 then StatusStep(st)
    else if a.ins == 0x60 || a.ins == 0x61 || a.ins == 0x62 then MfrStep(env, st, a.ins, a.data)
    else Outcome(st, Sw(SW_INS_NOT_SUPPORTED))
  }

  function Step(env: CardEnv, st: CardState, ev: Event): Outcome
    requires env.Valid() && Sane(st)
  {
    match ev
    case Deselect => Outcome(st.(session := NoSession), Ok([]))
    case Apdu(_, _, _, _, _) => ProcessStep(env, st, ev)
  }
}
