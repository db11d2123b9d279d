/** Swap authorisations: created and checked by the host (v0, BN254), checked by the card. */
module SwapAuth {
  import opened Options
  import opened Versions
  import opened Modular
  import opened Residues
  import opened Bytes
  import opened Ecdaa
  import opened EcdaaTheorems
  import opened CardArithmetic
  import CardSpec

  datatype SwapAuthorization = SwapAuthorization(c: Bytes, s: Bytes)

  function ToBytes(auth: SwapAuthorization): Bytes {
    auth.c + auth.s
  }

  function FromBytes(data: Bytes): Option<SwapAuthorization> {
    if |data| != 64 then None else Some(SwapAuthorization(data[..32], data[32..64]))
  }

  /** Exactly the 64-byte strings parse, and they are what serialising gives back. */
  lemma AuthorizationRoundTrip(auth: SwapAuthorization, data: Bytes)
    ensures |auth.c| == |auth.s| == 32 ==> FromBytes(ToBytes(auth)) == Some(auth)
    ensures FromBytes(data).Some? <==> |data| == 64
    ensures FromBytes(data).Some? ==> ToBytes(FromBytes(data).value) == data
  {
    if |auth.c| == |auth.s| == 32 {
      assert ToBytes(auth)[..32] == auth.c && ToBytes(auth)[32..64] == auth.s;
    }
  }

  function SwapAuthHash(su: Suite, r: int, bsn: int, pk: int): int {
    su.hashToScalar(su.encG1(r) + su.encG1(bsn) + su.encG1(pk))
  }

  /** swap_auth_create, with its random scalar r made explicit. */
  function SwapAuthCreate(su: Suite, swapSk: Bytes, swapPk: Bytes, bsnBase: Bytes, r: int): Option<SwapAuthorization>
    requires su.q > 0
  {
    match (DeserializeScalar(su, swapSk), DeserializeG1(su, swapPk), DeserializeG1(su, bsnBase))
    case (Some(sk), Some(pk), Some(bsn)) =>
      var c := SwapAuthHash(su, su.Mul(1, r), bsn, pk);
      Some(SwapAuthorization(su.encScalar(c), su.encScalar(su.Sum(r, su.Mul(c, sk)))))
    case _ => None
  }

  predicate SwapAuthVerify(su: Suite, swapPk: Bytes, bsnBase: Bytes, auth: SwapAuthorization)
    requires su.q > 0
  {
    match (DeserializeG1(su, swapPk), DeserializeG1(su, bsnBase),
           DeserializeScalar(su, auth.c), DeserializeScalar(su, auth.s))
    case (Some(pk), Some(bsn), Some(c), Some(s)) =>
      var rPrime := su.Sum(su.Mul(1, s), su.Mul(pk, Minus(0, c, su.q)));
      c == SwapAuthHash(su, rPrime, bsn, pk)
    case _ => false
  }

  // ----- Every created authorisation verifies -----

  lemma SubtractAsAdd(a: int, pk: int, c: int, q: int)
    requires q > 0
    ensures Plus(a, Times(pk, Minus(0, c, q), q), q) == Minus(a, Times(pk, c, q), q)
  {
    TimesMinus(pk, 0, c, q);
    TimesZero(pk, q);
    var t := Times(pk, c, q);
    CongMod(0 - t, q);
    CongAdd(a, a, Minus(0, t, q), 0 - t, q);
  }

  /** A token made with the key's own secret is accepted, for every basename point and draw. */
  lemma CreatedVerifies(su: Suite, swapSk: Bytes, swapPk: Bytes, bsnBase: Bytes, r: int)
    requires su.Valid() && Residue(r, su.q)
    requires var sk, pk := DeserializeScalar(su, swapSk), DeserializeG1(su, swapPk);
             sk.Some? && pk == Some(su.Mul(1, sk.value))
    ensures var auth := SwapAuthCreate(su, swapSk, swapPk, bsnBase, r);
            && (auth.Some? <==> DeserializeG1(su, bsnBase).Some?)
            && (auth.Some? ==> SwapAuthVerify(su, swapPk, bsnBase, auth.value))
  {
    if DeserializeG1(su, bsnBase).Some? {
      var q, sk := su.q, DeserializeScalar(su, swapSk).value;
      var pk, bsn := su.Mul(1, sk), DeserializeG1(su, bsnBase).value;
      var c := SwapAuthHash(su, su.Mul(1, r), bsn, pk);
      var s := su.Sum(r, su.Mul(c, sk));
      SecretDecodes(su, c);
      SecretDecodes(su, s);
      SubtractAsAdd(su.Mul(1, s), pk, c, q);
      SchnorrRecomputes(1, sk, r, c, q);
    }
  }

  /** The token carries the draw: its response less the challenge's share of the secret is r, and its
      challenge is the hash of the commitment to r. */
  lemma CreatedWith(su: Suite, swapSk: Bytes, swapPk: Bytes, bsnBase: Bytes, r: int)
    requires su.Valid() && Residue(r, su.q) && SwapAuthCreate(su, swapSk, swapPk, bsnBase, r).Some?
    ensures var auth := SwapAuthCreate(su, swapSk, swapPk, bsnBase, r).value;
            && |auth.c| == |auth.s| == 32
            && match (DeserializeScalar(su, auth.c), DeserializeScalar(su, auth.s))
               case (Some(c), Some(s)) =>
                 var sk, pk := DeserializeScalar(su, swapSk).value, DeserializeG1(su, swapPk).value;
                 && Minus(s, su.Mul(c, sk), su.q) == r
                 && c == su.hashToScalar(su.encG1(r) + su.encG1(DeserializeG1(su, bsnBase).value) + su.encG1(pk))
               case _ => false
  {
    var sk, pk := DeserializeScalar(su, swapSk).value, DeserializeG1(su, swapPk).value;
    var c := SwapAuthHash(su, su.Mul(1, r), DeserializeG1(su, bsnBase).value, pk);
    TimesOne(r, su.q);
    SecretDecodes(su, c);
    SecretDecodes(su, su.Sum(r, su.Mul(c, sk)));
    MinusUndoes(r, su.Mul(c, sk), su.q);
  }

  // ----- The card and the host agree -----

  /** The card's byte arithmetic is the host's group on encodings, its scalar order the group's,
      and the host's hash to scalars SHA-256 reduced by that order, as in v0. */
  ghost predicate Agrees(su: Suite, env: CardSpec.CardEnv) {
    && su.Valid() && env.Valid() && su.version == BN254
    && env.order(BN254) == su.q
    && env.generator(BN254) == su.encG1(1)
    && ScalarsAs(su)
    && (forall d {:trigger su.hashToScalar(d)} :: su.hashToScalar(d) == FromBE(env.sha256(d)) % su.q)
    && MultipliesAs(su, env)
    && AddsAs(su, env)
  }

  /** The hash the card compares and the one the host compares accept the same challenge. */
  lemma SameChallenge(su: Suite, env: CardSpec.CardEnv, d: Bytes, c: int)
    requires Agrees(su, env) && Residue(c, su.q)
    ensures ToBE(FromBE(env.sha256(d)) % su.q, 32) == su.encScalar(c) <==> su.hashToScalar(d) == c
  {
    ScalarBytes(su, c);
    ScalarBytes(su, su.hashToScalar(d));
    assert su.encScalar(su.hashToScalar(d)) == ToBE(su.hashToScalar(d), 32);
  }

  /** The commitment both sides recompute. */
  function Recomputed(su: Suite, pk: int, c: int, s: int): int
    requires su.q > 0
  {
    su.Sum(su.Mul(1, s), su.Mul(pk, Minus(0, c, su.q)))
  }

  lemma HostSide(su: Suite, pk: int, bsn: int, c: int, s: int)
    requires su.Valid() && Residue(pk, su.q) && Residue(bsn, su.q) && Residue(c, su.q) && Residue(s, su.q)
    ensures SwapAuthVerify(su, su.encG1(pk), su.encG1(bsn), SwapAuthorization(su.encScalar(c), su.encScalar(s)))
       <==> c == SwapAuthHash(su, Recomputed(su, pk, c, s), bsn, pk)
  {
    SecretDecodes(su, c);
    SecretDecodes(su, s);
    PointDecodes(su, pk);
    PointDecodes(su, bsn);
  }

  /** The commitment G*s + P*(order - c) that an authorisation (c, s) stands for; None if a
      multiplication or the addition throws. */
  function Commitment(env: CardSpec.CardEnv, v: Version, pubkey: Bytes, auth: Bytes): Option<Bytes>
    requires env.Valid() && |auth| == 64
  {
    var order := env.order(v);
    match (env.mul(v, env.generator(v), FromBE(auth[32..])),
           env.mul(v, pubkey, (order - FromBE(auth[..32])) % order))
    case (Some(a), Some(b)) => env.add(v, a, b)
    case _ => None
  }

  /** The check, for every input: the challenge in the token is the reduced hash of the commitment, the
      context and the public key, in this order. */
  lemma AuthIff(env: CardSpec.CardEnv, v: Version, pubkey: Bytes, ctx: Bytes, auth: Bytes)
    requires env.Valid() && |auth| == 64
    ensures var r := Commitment(env, v, pubkey, auth);
            && (CardSpec.SchnorrAuth(env, v, pubkey, ctx, auth).None? <==> r.None?)
            && (CardSpec.SchnorrAuth(env, v, pubkey, ctx, auth) == Some(true)
                <==> r.Some? && auth[..32] == ToBE(FromBE(env.sha256(r.value + ctx + pubkey)) % env.order(v), 32))
  {
  }

  lemma CardSide(su: Suite, env: CardSpec.CardEnv, pk: int, ctx: Bytes, c: int, s: int)
    requires Agrees(su, env) && Residue(pk, su.q) && Residue(c, su.q) && Residue(s, su.q)
    ensures var d := su.encG1(Recomputed(su, pk, c, s)) + ctx + su.encG1(pk);
            |su.encScalar(c) + su.encScalar(s)| == CardSpec.SWAP_AUTH_BYTES
            && CardSpec.SchnorrAuth(env, BN254, su.encG1(pk), ctx, su.encScalar(c) + su.encScalar(s))
               == Some(ToBE(FromBE(env.sha256(d)) % su.q, 32) == su.encScalar(c))
  {
    var q := su.q;
    ScalarBytes(su, c);
    ScalarBytes(su, s);
    NegatedScalar(c, q);
    var gs, pc := su.Mul(1, s), su.Mul(pk, Minus(0, c, q));
    assert env.mul(BN254, su.encG1(1), s) == Some(su.encG1(gs));
    assert env.mul(BN254, su.encG1(pk), (q - c) % q) == Some(su.encG1(pc));
    assert env.add(BN254, su.encG1(gs), su.encG1(pc)) == Some(su.encG1(su.Sum(gs, pc)));
    var auth := su.encScalar(c) + su.encScalar(s);
    assert auth[..32] == su.encScalar(c) && auth[32..] == su.encScalar(s);
    assert Commitment(env, BN254, su.encG1(pk), auth) == Some(su.encG1(su.Sum(gs, pc)));
    AuthIff(env, BN254, su.encG1(pk), ctx, auth);
  }

  /** On reduced scalars and encoded points, the card's check answers what the host's does. */
  lemma CardAgrees(su: Suite, env: CardSpec.CardEnv, pk: int, bsn: int, c: int, s: int)
    requires Agrees(su, env)
    requires Residue(pk, su.q) && Residue(bsn, su.q) && Residue(c, su.q) && Residue(s, su.q)
    ensures var auth := SwapAuthorization(su.encScalar(c), su.encScalar(s));
            && |ToBytes(auth)| == CardSpec.SWAP_AUTH_BYTES
            && CardSpec.SchnorrAuth(env, BN254, su.encG1(pk), su.encG1(bsn), ToBytes(auth))
               == Some(SwapAuthVerify(su, su.encG1(pk), su.encG1(bsn), auth))
  {
    HostSide(su, pk, bsn, c, s);
    CardSide(su, env, pk, su.encG1(bsn), c, s);
    SameChallenge(su, env, su.encG1(Recomputed(su, pk, c, s)) + su.encG1(bsn) + su.encG1(pk), c);
  }

  lemma NegatedScalar(c: int, q: int)
    requires q > 0
    ensures (q - c) % q == Minus(0, c, q)
  {
    CongIntro(q - c, 0 - c, 1, q);
  }

  /** A swap commit whose point, basename and token are well formed is let through exactly when
      the host's check accepts the token; in particular for every token created by the host
      under the card's swap key. The filter is not consulted. */
  lemma SwapCommitDecided(su: Suite, env: CardSpec.CardEnv, st: CardSpec.CardState,
                          pk: int, point: Bytes, bsn: int, c: int, s: int)
    requires Agrees(su, env) && st.key.Some? && st.key.value.version == BN254
    requires Residue(pk, su.q) && Residue(bsn, su.q) && Residue(c, su.q) && Residue(s, su.q)
    requires st.swapKey == Some(su.encG1(pk)) && |point| == 65
    ensures var auth := SwapAuthorization(su.encScalar(c), su.encScalar(s));
            var data := point + su.encG1(bsn) + ToBytes(auth);
            CardSpec.CommitRefusal(env, st, CardSpec.Swap, data)
              == if SwapAuthVerify(su, su.encG1(pk), su.encG1(bsn), auth) then None
                 else Some(CardSpec.Sw(CardSpec.SW_SWAP_AUTH_FAILED))
  {
    var auth := SwapAuthorization(su.encScalar(c), su.encScalar(s));
    var data := point + su.encG1(bsn) + ToBytes(auth);
    CardAgrees(su, env, pk, bsn, c, s);
    assert data[65..130] == su.encG1(bsn) && data[130..] == ToBytes(auth);
  }

  /** The card's check accepts every token the host creates with the key's own secret. */
  lemma CreatedAccepted(su: Suite, env: CardSpec.CardEnv, sk: int, bsn: int, r: int)
    requires Agrees(su, env) && Residue(sk, su.q) && Residue(bsn, su.q) && Residue(r, su.q)
    ensures var pk := su.encG1(su.Mul(1, sk));
            var auth := SwapAuthCreate(su, su.encScalar(sk), pk, su.encG1(bsn), r);
            && auth.Some? && |ToBytes(auth.value)| == CardSpec.SWAP_AUTH_BYTES
            && CardSpec.SchnorrAuth(env, BN254, pk, su.encG1(bsn), ToBytes(auth.value)) == Some(true)
  {
    SecretDecodes(su, sk);
    PointDecodes(su, su.Mul(1, sk));
    PointDecodes(su, bsn);
    CreatedVerifies(su, su.encScalar(sk), su.encG1(su.Mul(1, sk)), su.encG1(bsn), r);
    var c := SwapAuthHash(su, su.Mul(1, r), bsn, su.Mul(1, sk));
    CardAgrees(su, env, su.Mul(1, sk), bsn, c, su.Sum(r, su.Mul(c, sk)));
  }

  lemma CreatedOpensSession(su: Suite, env: CardSpec.CardEnv, st: CardSpec.CardState,
                            sk: int, point: Bytes, bsn: int, r: int)
    requires Agrees(su, env) && st.key.Some? && st.key.value.version == BN254
    requires Residue(sk, su.q) && Residue(bsn, su.q) && Residue(r, su.q)
    requires st.swapKey == Some(su.encG1(su.Mul(1, sk))) && |point| == 65
    ensures var auth := SwapAuthCreate(su, su.encScalar(sk), st.swapKey.value, su.encG1(bsn), r);
            && auth.Some?
            && CardSpec.CommitRefusal(env, st, CardSpec.Swap, point + su.encG1(bsn) + ToBytes(auth.value)).None?
  {
    CreatedAccepted(su, env, sk, bsn, r);
    var auth := SwapAuthCreate(su, su.encScalar(sk), st.swapKey.value, su.encG1(bsn), r).value;
    var data := point + su.encG1(bsn) + ToBytes(auth);
    assert data[65..130] == su.encG1(bsn) && data[130..] == ToBytes(auth);
  }
}
