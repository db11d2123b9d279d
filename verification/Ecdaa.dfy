/** ECDAA (v0 over BN254, v1 over BLS12-381). A group of prime order q is modelled by its
    discrete logarithms: elements of G1, G2, GT and scalars are residues modulo q. */
module Ecdaa {
  import opened Options
  import opened Versions
  import opened Modular
  import opened Residues
  import opened Bytes

  const SCALAR_LENGTH: nat := 32

  /** The library functions the protocol relies on: byte encodings and hashes, all arbitrary. */
  datatype Suite = Suite(
    version: Version,
    q: int,
    encG1: int -> Bytes, decG1: Bytes -> Option<int>,
    encG2: int -> Bytes, decG2: Bytes -> Option<int>,
    encScalar: int -> Bytes, decScalar: Bytes -> Option<int>,
    hashToScalar: Bytes -> int, hashToG1: Bytes -> int)
  {
    function G1Length(): nat { if version.BN254? then 65 else 48 }
    function G2Length(): nat { if version.BN254? then 129 else 96 }
    function CredentialLength(): nat { 4 * G1Length() }
    function SignatureLength(): nat { 3 * SCALAR_LENGTH + 4 * G1Length() }
    function SignatureWithNymLength(): nat { SignatureLength() + G1Length() }
    function MemberKeyLength(): nat { G1Length() + 3 * SCALAR_LENGTH }
    function GroupKeyLength(): nat { 2 * G2Length() }

    /** Encodings have a fixed length and a left inverse; decoding and hashing give residues.
        The G2 identity need not be decodable: v0 rejects it. */
    ghost predicate Valid() {
      && Prime(q)
      && (forall v {:trigger encG1(v)} :: Residue(v, q) ==>
            |encG1(v)| == G1Length() && decG1(encG1(v)) == Some(v))
      && (forall v {:trigger encG2(v)} :: Residue(v, q) ==>
            |encG2(v)| == G2Length() && (v != 0 ==> decG2(encG2(v)) == Some(v)))
      && (forall v {:trigger encScalar(v)} :: Residue(v, q) ==>
            |encScalar(v)| == SCALAR_LENGTH && decScalar(encScalar(v)) == Some(v))
      && (forall d {:trigger decG1(d)} :: decG1(d).Some? ==> Residue(decG1(d).value, q))
      && (forall d {:trigger decG2(d)} :: decG2(d).Some? ==> Residue(decG2(d).value, q))
      && (forall d {:trigger decScalar(d)} :: decScalar(d).Some? ==> Residue(decScalar(d).value, q))
      && (forall d {:trigger hashToScalar(d)} :: Residue(hashToScalar(d), q))
      && (forall d {:trigger hashToG1(d)} :: Residue(hashToG1(d), q))
      && decG2(encG2(0)) in {None, Some(0)}
    }

    function Mul(point: int, scalar: int): int
      requires q > 0
    {
      Times(point, scalar, q)
    }

    function Sum(a: int, b: int): int
      requires q > 0
    {
      Plus(a, b, q)
    }

    function Pairing(a: int, b: int): int
      requires q > 0
    {
      Times(a, b, q)
    }
  }

  // ----- Decoding by offset -----

  function PointAt(su: Suite, data: Bytes, off: nat): Option<int>
    requires off + su.G1Length() <= |data|
  {
    su.decG1(data[off..off + su.G1Length()])
  }

  function ScalarAt(su: Suite, data: Bytes, off: nat): Option<int>
    requires off + SCALAR_LENGTH <= |data|
  {
    su.decScalar(data[off..off + SCALAR_LENGTH])
  }

  function DeserializeScalar(su: Suite, data: Bytes): Option<int> {
    if |data| < SCALAR_LENGTH then None else ScalarAt(su, data, 0)
  }

  function DeserializeG1(su: Suite, data: Bytes): Option<int> {
    if |data| < su.G1Length() then None else PointAt(su, data, 0)
  }

  datatype Credential = Credential(a: int, b: int, c: int, d: int)

  ghost predicate CredentialOf(su: Suite, k: Credential) {
    Residue(k.a, su.q) && Residue(k.b, su.q) && Residue(k.c, su.q) && Residue(k.d, su.q)
  }

  function EncodeCredential(su: Suite, k: Credential): Bytes {
    su.encG1(k.a) + su.encG1(k.b) + su.encG1(k.c) + su.encG1(k.d)
  }

  function DecodeCredential(su: Suite, data: Bytes): Option<Credential>
    requires |data| >= su.CredentialLength()
  {
    var g := su.G1Length();
    match (PointAt(su, data, 0), PointAt(su, data, g), PointAt(su, data, 2 * g), PointAt(su, data, 3 * g))
    case (Some(a), Some(b), Some(c), Some(d)) => Some(Credential(a, b, c, d))
    case _ => None
  }

  function Scale(su: Suite, k: Credential, l: int): Credential
    requires su.q > 0
  {
    Credential(su.Mul(k.a, l), su.Mul(k.b, l), su.Mul(k.c, l), su.Mul(k.d, l))
  }

  // ----- Keys and credentials -----

  datatype KeyPair = KeyPair(secretKey: Bytes, publicKey: Bytes)

  function MemberInput(su: Suite, u: int, base: int, k: int, nonce: Bytes): Bytes {
    su.encG1(u) + su.encG1(base) + su.encG1(k) + nonce
  }

  function MemberHash(su: Suite, u: int, base: int, k: int, nonce: Bytes): int {
    su.hashToScalar(MemberInput(su, u, base, k, nonce))
  }

  function EncodeMemberKey(su: Suite, k: int, c: int, s: int, n: int): Bytes {
    su.encG1(k) + su.encScalar(c) + su.encScalar(s) + su.encScalar(n)
  }

  /** generate_wallet_keypair with its three random scalars sk, r, n made explicit. */
  function GenerateWalletKeypair(su: Suite, nonce: Bytes, sk: int, r: int, n: int): Option<KeyPair>
    requires su.q > 0
  {
    if nonce == [] then None else
    var b := su.hashToG1(nonce);
    var k := su.Mul(b, sk);
    var c := MemberHash(su, su.Mul(b, r), b, k, nonce);
    var s := su.Sum(r, su.Mul(c, sk));
    Some(KeyPair(su.encScalar(sk), EncodeMemberKey(su, k, c, s, n)))
  }

  function GenerateIssuerKeypair(su: Suite, x: int, y: int): KeyPair
    requires su.q > 0
  {
    KeyPair(su.encScalar(x) + su.encScalar(y), su.encG2(su.Mul(1, x)) + su.encG2(su.Mul(1, y)))
  }

  /** The check that issue_credential makes of the member's proof of knowledge. */
  predicate MemberProofHolds(su: Suite, k: int, c: int, s: int, nonce: Bytes)
    requires su.q > 0
  {
    var b := su.hashToG1(nonce);
    c == MemberHash(su, Minus(su.Mul(b, s), su.Mul(k, c), su.q), b, k, nonce)
  }

  function IssuedCredential(su: Suite, b: int, k: int, x: int, yInv: int): Credential
    requires su.q > 0
  {
    var a := su.Mul(b, yInv);
    Credential(a, b, su.Mul(su.Sum(a, k), x), k)
  }

  datatype Issued = Issued(credential: Bytes, signature: Bytes)

  function IssueCredential(su: Suite, memberKey: Bytes, issuerKey: Bytes, nonce: Bytes, r: int): Option<Issued>
    requires su.Valid()
  {
    if |memberKey| < su.MemberKeyLength() || |issuerKey| < 2 * SCALAR_LENGTH then None else
    var g := su.G1Length();
    match (PointAt(su, memberKey, 0), ScalarAt(su, memberKey, g), ScalarAt(su, memberKey, g + SCALAR_LENGTH))
    case (Some(k), Some(c), Some(s)) =>
      if !MemberProofHolds(su, k, c, s, nonce) then None else (
        match (ScalarAt(su, issuerKey, 0), ScalarAt(su, issuerKey, SCALAR_LENGTH))
        case (Some(x), Some(y)) =>
          if y == 0 then None else
          var b := su.hashToG1(nonce);
          var cSig := su.hashToScalar(su.encG1(su.Mul(b, r)) + su.encG1(k) + su.encG1(k));
          var sSig := su.Sum(r, su.Mul(cSig, y));
          Some(Issued(EncodeCredential(su, IssuedCredential(su, b, k, x, Inverse(y, su.q))),
                      su.encScalar(cSig) + su.encScalar(sSig)))
        case _ => None)
    case _ => None
  }

  function RandomizeCredential(su: Suite, credential: Bytes, l: int): (out: Option<Bytes>)
    requires su.Valid() && (credential == [] || |credential| >= su.CredentialLength())
    ensures out.Some? ==> |out.value| == su.CredentialLength()
  {
    if credential == [] then None else
    match DecodeCredential(su, credential)
    case Some(k) => Some(EncodeCredential(su, Scale(su, k, l)))
    case None => None
  }

  // ----- Signatures -----

  /** The pseudonym part of a signature: commitment, pseudonym and basename point. */
  datatype Nym = Nym(kU: int, k: int, base: int)

  function ChallengeInput(su: Suite, u: int, s: int, w: int, message: Bytes, nym: Option<Nym>): Bytes {
    var data := su.encG1(u) + su.encG1(s) + su.encG1(w) + message;
    match nym
    case Some(m) => data + su.encG1(m.kU) + su.encG1(m.k) + su.encG1(m.base)
    case None => data
  }

  /** The two nested hashes that bind commitment, credential, message, pseudonym and nonce. */
  function Challenge(su: Suite, u: int, s: int, w: int, message: Bytes, nym: Option<Nym>, n: int): int {
    su.hashToScalar(su.encScalar(n) + su.encScalar(su.hashToScalar(ChallengeInput(su, u, s, w, message, nym))))
  }

  datatype Signature = Signature(c: int, s: int, cred: Credential, n: int, k: Option<int>)

  function EncodeSignature(su: Suite, g: Signature): Bytes {
    var fixed := su.encScalar(g.c) + su.encScalar(g.s) + su.encG1(g.cred.a) + su.encG1(g.cred.b)
                 + su.encG1(g.cred.c) + su.encG1(g.cred.d) + su.encScalar(g.n);
    if g.k.Some? then fixed + su.encG1(g.k.value) else fixed
  }

  /** What a signer with secret sk, commitment nonce r and replay nonce n produces. */
  function HonestSignature(su: Suite, message: Bytes, cred: Credential, sk: int,
                           basename: Option<Bytes>, r: int, n: int): Signature
    requires su.q > 0
  {
    var nym := match basename
               case Some(bsn) =>
                 var base := su.hashToG1(bsn);
                 Some(Nym(su.Mul(base, r), su.Mul(base, sk), base))
               case None => None;
    var c := Challenge(su, su.Mul(cred.b, r), cred.b, cred.d, message, nym, n);
    Signature(c, su.Sum(r, su.Mul(c, sk)), cred, n, if nym.Some? then Some(nym.value.k) else None)
  }

  /** The bytes sign leaves in its output, or None when it returns false; l, r and n are the
      random scalars it draws. */
  function SignatureBytes(su: Suite, message: Bytes, credential: Bytes, secretKey: Bytes,
                          basename: Option<Bytes>, randomize: bool, l: int, r: int, n: int): Option<Bytes>
    requires su.q > 0 && (credential == [] || |credential| >= su.CredentialLength())
  {
    if message == [] || credential == [] || secretKey == [] || basename == Some([]) then None else
    match (DecodeCredential(su, credential), DeserializeScalar(su, secretKey))
    case (Some(k), Some(sk)) =>
      var cred := if randomize then Scale(su, k, l) else k;
      Some(EncodeSignature(su, HonestSignature(su, message, cred, sk, basename, r, n)))
    case _ => None
  }

  method Sign(su: Suite, message: Bytes, credential: Bytes, secretKey: Bytes, basename: Option<Bytes>,
              randomize: bool, l: int, r: int, n: int, previous: Bytes)
    returns (ok: bool, signature: Bytes)
    requires su.q > 0 && (credential == [] || |credential| >= su.CredentialLength())
    ensures var spec := SignatureBytes(su, message, credential, secretKey, basename, randomize, l, r, n);
            ok == spec.Some? && signature == if ok then spec.value else previous
  {
    ok, signature := false, previous;
    if message == [] || credential == [] || secretKey == [] { return; }
    if basename.Some? && basename.value == [] { return; }
    var cred := DecodeCredential(su, credential);
    if cred.None? { return; }
    var a, b, c, d := cred.value.a, cred.value.b, cred.value.c, cred.value.d;
    var key := DeserializeScalar(su, secretKey);
    if key.None? { return; }
    var sk := key.value;
    if randomize {
      a := su.Mul(a, l);
      b := su.Mul(b, l);
      c := su.Mul(c, l);
      d := su.Mul(d, l);
    }
    var hashData := su.encG1(su.Mul(b, r)) + su.encG1(b) + su.encG1(d) + message;
    var kPoint := 0;
    if basename.Some? {
      var base := su.hashToG1(basename.value);
      kPoint := su.Mul(base, sk);
      hashData := hashData + su.encG1(su.Mul(base, r)) + su.encG1(kPoint) + su.encG1(base);
    }
    var c2 := su.hashToScalar(hashData);
    var sigC := su.hashToScalar(su.encScalar(n) + su.encScalar(c2));
    var sigS := su.Sum(r, su.Mul(sigC, sk));
    signature := su.encScalar(sigC) + su.encScalar(sigS);
    signature := signature + su.encG1(a) + su.encG1(b) + su.encG1(c) + su.encG1(d);
    signature := signature + su.encScalar(n);
    if basename.Some? {
      signature := signature + su.encG1(kPoint);
    }
    ok := true;
  }

  function DecodeSignature(su: Suite, data: Bytes, withNym: bool): Option<Signature>
    requires |data| >= if withNym then su.SignatureWithNymLength() else su.SignatureLength()
  {
    var g := su.G1Length();
    match (ScalarAt(su, data, 0), ScalarAt(su, data, 32), ScalarAt(su, data, 64 + 4 * g))
    case (Some(c), Some(s), Some(n)) => (
      match (PointAt(su, data, 64), PointAt(su, data, 64 + g), PointAt(su, data, 64 + 2 * g), PointAt(su, data,
              64 + 3 * g))
      case (Some(r), Some(sp), Some(t), Some(w)) =>
        if !withNym then Some(Signature(c, s, Credential(r, sp, t, w), n, None)) else
        (match PointAt(su, data, su.SignatureLength())
         case Some(k) => Some(Signature(c, s, Credential(r, sp, t, w), n, Some(k)))
         case None => None)
      case _ => None)
    case _ => None
  }

  datatype GroupKey = GroupKey(x: int, y: int)

  function DecodeGroupKey(su: Suite, data: Bytes): Option<GroupKey>
    requires |data| >= su.GroupKeyLength()
  {
    match (su.decG2(data[..su.G2Length()]), su.decG2(data[su.G2Length()..2 * su.G2Length()]))
    case (Some(x), Some(y)) => Some(GroupKey(x, y))
    case _ => None
  }

  /** U and K_u as verify recomputes them. */
  function RecomputedU(su: Suite, g: Signature): int
    requires su.q > 0
  {
    Minus(su.Mul(g.cred.b, g.s), su.Mul(g.cred.d, g.c), su.q)
  }

  function RecomputedKU(su: Suite, g: Signature, base: int): int
    requires su.q > 0 && g.k.Some?
  {
    Minus(su.Mul(base, g.s), su.Mul(g.k.value, g.c), su.q)
  }

  predicate ChallengeMatches(su: Suite, g: Signature, basename: Option<Bytes>, message: Bytes)
    requires su.q > 0 && (basename.Some? ==> g.k.Some?)
  {
    var nym := match basename
               case Some(bsn) =>
                 var base := su.hashToG1(bsn);
                 Some(Nym(RecomputedKU(su, g, base), g.k.value, base))
               case None => None;
    g.c == Challenge(su, RecomputedU(su, g), g.cred.b, g.cred.d, message, nym, g.n)
  }

  /** The two pairing equations of a credential, with P2 = 1. */
  predicate PairingsHold(su: Suite, k: Credential, gpk: GroupKey)
    requires su.q > 0
  {
    && su.Pairing(k.a, gpk.y) == su.Pairing(k.b, 1)
    && su.Pairing(k.c, 1) == su.Pairing(su.Sum(k.a, k.d), gpk.x)
  }

  predicate Verify(su: Suite, groupKey: Bytes, basename: Option<Bytes>, signingCredential: Option<Bytes>,
                   signature: Bytes, message: Bytes)
    requires su.q > 0 && (groupKey == [] || |groupKey| >= su.GroupKeyLength())
  {
    if groupKey == [] || signature == [] || message == [] then false
    else if |signature| < (if basename.Some? then su.SignatureWithNymLength() else su.SignatureLength()) then false
    else
      match (DecodeGroupKey(su, groupKey), DecodeSignature(su, signature, basename.Some?))
      case (Some(gpk), Some(g)) =>
        && g.cred.a != 0 && g.cred.b != 0 && g.cred.c != 0 && g.cred.d != 0
        && (signingCredential.Some? ==>
              |signingCredential.value| >= su.CredentialLength()
              && EncodeCredential(su, g.cred) == signingCredential.value)
        && ChallengeMatches(su, g, basename, message)
        && PairingsHold(su, g.cred, gpk)
      case _ => false
  }

  predicate CredentialInGroup(su: Suite, credential: Bytes, groupKey: Bytes)
    requires su.q > 0
  {
    if |credential| < su.CredentialLength() || |groupKey| < su.GroupKeyLength() then false else
    match (DecodeCredential(su, credential), DecodeGroupKey(su, groupKey))
    case (Some(k), Some(gpk)) => k.a != 0 && k.b != 0 && PairingsHold(su, k, gpk)
    case _ => false
  }

  function CredentialFromSignature(su: Suite, signature: Bytes): Option<Bytes> {
    if |signature| < su.SignatureLength() then None
    else Some(signature[2 * SCALAR_LENGTH..2 * SCALAR_LENGTH + su.CredentialLength()])
  }

  function DeflateSignature(su: Suite, signature: Bytes): Bytes {
    if |signature| < su.SignatureLength() then signature
    else signature[..2 * SCALAR_LENGTH] + signature[2 * SCALAR_LENGTH + su.CredentialLength()..]
  }

  function InflateSignature(credential: Bytes, signature: Bytes): Bytes
    requires |signature| >= 2 * SCALAR_LENGTH
  {
    signature[..2 * SCALAR_LENGTH] + credential + signature[2 * SCALAR_LENGTH..]
  }
}
