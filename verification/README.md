# Split-key ECDAA, its card and two of its services

This project models, and proves properties of, the part of Briolette where anonymous credentials, a
smart card and concurrent services have to agree: ECDAA over a prime-order group, the additive split of
a signing key between a card and a host, the card's curve arithmetic and byte formats, the card applet
as a state machine, the receiver's transaction table and the rate limiter.

`dafny verify dfyconfig.toml` checks the whole project.

## How it is organised

| file | subject |
|---|---|
| `Common`, `Modular`, `Bytes`, `Residues` | options and curve versions; primes, inverses, Fermat, square roots; big-endian bytes and buffer writes; the ring of residues modulo the group order |
| `Curve`, `GroupLaw`, `RawCurve`, `LadderFaults`, `ECMath`, `HashToG1` | the affine group law of y² = x³ + b, and that it is the law of chords and tangents; the same arithmetic on unreduced coordinates, and exactly when it throws there; the point and scalar formats; try-and-increment hashing |
| `Ecdaa`, `EcdaaTheorems`, `CredentialTheorems`, `Randomizing`, `Binding` | keys, credentials, signing, verification; which keys, credentials and signatures are accepted; what re-randomising does and hides; where every field lies; what the hashes bind |
| `SplitEcdaa`, `SplitChain` | the protocol's card object, split signing, blind joins, the chained TTC to NAC join |
| `BloomFilter`, `CardSpec`, `CardRuns`, `CardHistory`, `Applet` | the card's filter, its step function, safety over every run, the state read off the history, and the applet object proved against the step function |
| `CardArithmetic`, `CardProtocol`, `SwapAuth`, `TokenBinding` | where the Java card meets the Rust host: same group, same bytes, same verdicts; what an authorisation is bound to |
| `Overlap`, `CommitFaults`, `BasenameVerdict` | the one output that differs, decided on both curves; when a commit fails after its nonce; and what becomes of the signature |
| `RateLimit`, `RateLimitRuns`, `RateLimitAnswers` | the token-bucket limiter, its runs, and exactly which checks pass |
| `Amounts`, `Receiver`, `ReceiverRuns`, `ReceiverOrphans`, `ReceiverProgress`, `ReceiverProvenance`, `ReceiverHandlers` | money, the receiver's interleaved handlers and timers, conservation, orphaned entries, the end of every timer, what every accepted step has passed, the handlers as methods |

## How it is modelled

- **The group.** An element of G1, G2, GT or of the scalars is its discrete logarithm, a residue modulo
  an arbitrary prime q; a pairing is a product, so bilinearity is proved. Encodings and hashes are
  arbitrary functions; encodings have a fixed length and a left inverse. `CardArithmetic` then shows that the
  card's own affine arithmetic on bytes realises this group.
- **Both versions at once.** v0 (BN254) and v1 (BLS12-381) are one algorithm with two sets of lengths, so
  a `Suite` carries the version. Where they differ the model branches: signing with a swap authorisation
  needs a basename in v0 only.
- **Square roots.** The root that the libraries take modulo p is the power (p+1)/4.
- **Randomness, clocks, choices.** Every random scalar, clock reading, choice among equally old entries
  and verdict of an external verifier is an explicit argument.
- **Output vectors.** A `&mut Vec` argument is an input for its previous contents and an output.
- **The static curve selection** of `ECMath` is a parameter.
- **Exceptions.** The simulator compares coordinates as integers, reduces everything else and lets
  `modInverse` throw on zero. Point operations are therefore partial and take any coordinates that fit
  their fields; an uncaught exception of the applet is a `Fault` reply that records whether a nonce had
  been drawn, and the host sees it as the runtime's status 6F00.
- **Taken on trust**, always as a visible hypothesis: associativity of the curve's group law
  (`Associative`), primality of the moduli and of the group order, and in `WholeGroup` that BN254's scalar order
  annihilates every point. Closure, commutativity, inverses and everything else about the group law are proved.

## What the code does not do

- **Third output of a basename commit.** K_card is written at [G1, 2·G1) while the basename point lies at
  [5+G1, 5+2·G1), so the card multiplies overlaid bytes. `Overlap.ThirdOutputIff` decides for every
  basename, share and nonce, on both curves, when the output is right all the same: the nonce r is zero, or
  the bytes still read as the basename, or r is at least two and the coordinates, reduced, are a point of
  the curve that differs from the basename by one that r annihilates. On BN254 that leaves only the basename
  itself (`Overlap.ThirdOutputOnBN254`). `Overlap.ThirdOutputMisses` gives a case where the output is wrong.
  `BasenameVerdict.BasenameVerdict` follows the commit to the verifier: apart from these cases the card
  throws, the host cannot decode the output and gives up, or the signature does not verify.
- **A failed commit can replace a session.** A refused command leaves an open session alone, but a commit
  that throws after drawing its nonce has replaced it (`CardRuns.FaultEffects`). `CommitFaults.FailureReplacesSession`
  says for which operands, in every run: those with an ordinate that is p or a multiple of it, and those with
  an abscissa at or above p that stands for a point whose order the scalar's leading bits meet
  (`LadderFaults.ThrowsIff`, `LadderFaults.ThrowsInGroup`). It never happens on coordinates below p, nor on
  points of the group (`CommitFaults.HarmlessCommit`). It does on BN254 with (0, p)
  (`CardArithmetic.FaultReplacesSession`) and on BLS12-381 with (p, 2) (`CommitFaults.JoinThrowsOnBLS381`).
- **Epochs from 2^31 on.** The comment calls the epoch an unsigned 32-bit number, but the card compares
  signed and refuses the upper half (`CardRuns.ResettingEpochs`).
- **Signatures with and without a basename.** What verify hashes does not say whether there was a basename.
  A signature string accepted with one is also accepted without, for the message followed by the hashed
  pseudonym part, and conversely (`Binding.AcceptedWithout`); as long as the hash tells inputs apart it is
  accepted for no other (`Binding.SignatureBindsAcross`).
- **Order of a transaction's steps.** The receiver's handlers never test which state an entry is in
  (`ReceiverRuns.StateIgnored`); `ReceiverOrphans.TransferAfterInitiate` is a run that goes
  straight from initiate to an accepted transfer.
- **Entries outliving their timer.** A handler's late write can bring back an entry its timer removed, and
  nothing then removes it. `ReceiverOrphans` proves when this can happen and when it cannot.
- **Eviction in the limiter** shows as soon as a bucket that is not full has been evicted
  (`RateLimitRuns.FirstLossObservable`) and not before (`RateLimitRuns.EvictionUnobservable`).
- **Registrar nonce.** The chained join uses the combined TTC point as the NAC nonce, while the registrar
  passes the whole 144-byte TTC key. Under the first the NAC key passes the issuer's check
  (`SplitChain.ChainedKeysIssue`), under the second it is refused (`SplitChain.ChainedNacRefused`).
- **Swap authorisations in v1** hash with hash-to-field while the card uses SHA-256 modulo the order;
  agreement of card and host is stated for v0 only.

## Model

| member | source | states |
|---|---|---|
| Curve.AddOnCurve | src/javacard/applet-sim/ECMath.java:192-209 | the sum of two points of the curve, computed with no inversion of zero, is the identity or a canonical point of the curve |
| Curve.DoubleOnCurve | src/javacard/applet-sim/ECMath.java:211-224 | doubling, which never inverts zero, gives the identity or a canonical point of the curve |
| Curve.AddCommutes | src/javacard/applet-sim/ECMath.java:192-209 | the computed sum does not depend on the order of the operands |
| Curve.AddIdentityIff | src/javacard/applet-sim/ECMath.java:192-200 | two points sum to null exactly when one is the other's negative |
| GroupLaw.ChordSumIff | src/javacard/applet-sim/ECMath.java:192-209 | for distinct abscissas, (x3, y3) is the computed sum if and only if (x3, -y3) lies on the line through the operands and x1 + x2 + x3 is the square of its slope; no associativity assumed |
| GroupLaw.TangentSumIff | src/javacard/applet-sim/ECMath.java:211-224 | the same for doubling, with the tangent |
| GroupLaw.AddUndone | src/javacard/applet-sim/ECMath.java:192-224 | for all points of a non-singular curve, adding a point's negative undoes adding the point; no associativity assumed |
| GroupLaw.SubtractionIff | src/javacard/applet-sim/ECMath.java:192-224 | so s + t = u if and only if s = u - t |
| Curve.LadderOnCurve | src/javacard/applet-sim/ECMath.java:97-111 | every result of double-and-add is on the curve |
| Curve.LadderIsMultiple | src/javacard/applet-sim/ECMath.java:97-111 | double-and-add computes the k-fold sum, also when partial sums pass through the identity (given associativity) |
| Curve.MultipleSum | src/javacard/applet-sim/ECMath.java:97-111 | multiples of a point add as their factors do |
| Curve.MultipleProduct | src/javacard/applet-sim/ECMath.java:97-111 | a multiple of a multiple is the multiple by the product |
| Curve.MultipleResidue | src/javacard/applet-sim/ECMath.java:181-186 | only the residue of a factor modulo an annihilating order counts |
| Curve.MultipleOfSum | src/javacard/applet-sim/ECMath.java:97-111 | a multiple of a sum is the sum of the multiples |
| Curve.PrimeOrder | src/javacard/applet-sim/ECMath.java:97-111 | exactly the multiples of its prime order annihilate a point |
| RawCurve.AddTotal | src/javacard/applet-sim/ECMath.java:192-224 | on reduced operands pointAdd and pointDouble never throw and are the group law |
| RawCurve.AddReduces | src/javacard/applet-sim/ECMath.java:192-209 | on any coordinates with distinct residues pointAdd is the sum of the reduced points |
| RawCurve.DoubleReduces | src/javacard/applet-sim/ECMath.java:211-224 | on any coordinates pointDouble does not throw on, it doubles the reduced point |
| RawCurve.LadderTotal | src/javacard/applet-sim/ECMath.java:97-111 | on a reduced point double-and-add never throws |
| RawCurve.RawLadderOnCurve | src/javacard/applet-sim/ECMath.java:97-111 | on any point a run that does not throw stays on that point's own curve |
| RawCurve.FreeLadder | src/javacard/applet-sim/ECMath.java:97-111 | on an unreduced point none of whose multiples up to k vanishes, nothing throws and the result is the k-fold sum of the reduced point |
| RawCurve.LadderDecides | src/javacard/applet-sim/ECMath.java:97-111 | a run on any point of the curve gives the r-fold sum of a base of prime order if and only if the reduced point differs from base by one that r annihilates; then it does not throw |
| RawCurve.VerticalThrows | src/javacard/applet-sim/ECMath.java:211-219 | an ordinate that is a non-zero multiple of p makes every run on a scalar of at least two throw |
| LadderFaults.ThrowsIff | src/javacard/applet-sim/ECMath.java:97-111 | for any scalar and coordinates, double-and-add throws if and only if the scalar is at least two and the ordinate is a non-zero multiple of p, or the abscissa is not reduced and some prefix of the scalar's bits reaches it |
| LadderFaults.ThrowsInGroup | src/javacard/applet-sim/ECMath.java:97-111 | on a point of any curve with an associative law the second case means: the point's order divides an odd prefix of the scalar, or that prefix less two |
| LadderFaults.GroupNeverTrips | src/javacard/applet-sim/ECMath.java:97-111 | coordinates that reduce to a point of prime order never throw for scalars below the order |
| LadderFaults.ThirdThrows | src/javacard/applet-sim/ECMath.java:97-111 | (p, y) throws for every scalar that begins with two ones, on any curve |
| ECMath.ShippedCurvesSound | src/javacard/applet-sim/ECMath.java:53-72 | both shipped parameter sets satisfy what the formats and the square root need |
| ECMath.ShippedFamilies | src/javacard/applet-sim/ECMath.java:53-72 | the shipped moduli and orders are those of the Barreto-Naehrig and BLS12 families at their parameters |
| ECMath.RootSelected | src/javacard/applet-sim/ECMath.java:275-296 | y is recovered from its square by v^((p+1)/4) and the flag y > p/2 |
| ECMath.CompressedRoundTrip | src/javacard/applet-sim/ECMath.java:258-345 | reading the 48 bytes written for any point of the curve, identity included, gives the point back |
| ECMath.UncompressedRoundTrip | src/javacard/applet-sim/ECMath.java:245-345 | the same for the 65-byte form, whose identity is 0x04 and zeros |
| ECMath.PointRoundTrip | src/javacard/applet-sim/ECMath.java:237-345 | the same for whichever form the curve uses |
| ECMath.EncodingInjective | src/javacard/applet-sim/ECMath.java:300-345 | distinct points have distinct encodings |
| ECMath.CompressedReencode | src/javacard/applet-sim/ECMath.java:258-330 | a compressed string that decodes to canonical coordinates is the one string for its point, which is on the curve |
| ECMath.CompressedReencodeIff | src/javacard/applet-sim/ECMath.java:258-345 | a 48-byte string is what is written for what it is read as if and only if it is flagged as compressed and is read as a point, or is the one string for the identity |
| ECMath.UncompressedReencodeIff | src/javacard/applet-sim/ECMath.java:245-345 | a 65-byte string is, if and only if it begins with 0x04 |
| ECMath.WriteIdentity | src/javacard/applet-sim/ECMath.java:332-345 | writes exactly the identity's encoding, nothing else in the buffer |
| ECMath.WritePointCompressed | src/javacard/applet-sim/ECMath.java:319-330 | writes exactly the flagged encoding |
| ECMath.WritePoint | src/javacard/applet-sim/ECMath.java:300-330 | writes exactly the encoding of the point in the curve's form |
| ECMath.DoubleAndAdd | src/javacard/applet-sim/ECMath.java:97-111 | the loop's result is the partial ladder of the whole scalar, null standing for "not started" and for the identity, an exception for the whole |
| ECMath.EcPointMul | src/javacard/applet-sim/ECMath.java:85-118 | for every operand: throws exactly when the partial ladder does, and otherwise the output window holds the encoding of the product as read and the rest of the buffer is untouched, also when buffers alias |
| ECMath.EcPointAdd | src/javacard/applet-sim/ECMath.java:123-149 | likewise for the sum, with its identity cases and its exception |
| ECMath.ProductMeaning | src/javacard/applet-sim/ECMath.java:85-118 | on a point of the curve it does not throw, and its bytes decode to the k-fold sum of the point read |
| ECMath.ScalarMulAdd | src/javacard/applet-sim/ECMath.java:154-165 | writes a + b·c modulo the order, whatever the operands' size |
| ECMath.ScalarNegate | src/javacard/applet-sim/ECMath.java:170-178 | writes the reduced additive inverse |
| ECMath.ReduceModOrder | src/javacard/applet-sim/ECMath.java:181-186 | replaces a scalar by its residue in place |
| Bytes.WriteCoord | src/javacard/applet-sim/ECMath.java:368-388 | writes val modulo 256^len in exactly len bytes, padded or cut on the left |
| Bytes.FromToBE | src/javacard/applet-sim/ECMath.java:351-388 | reading what was written gives the value modulo 256^len |
| Bytes.ToFromBE | src/javacard/applet-sim/ECMath.java:351-388 | writing what was read restores the bytes |
| Bytes.FirstByte | src/javacard/applet-sim/ECMath.java:351-388 | the first byte written is the most significant digit |
| HashToG1.PointAtIff | src/crypto/src/v0.rs:153-165 | a counter yields a point exactly when some point of the curve has its hash as abscissa, and that point is on the curve |
| HashToG1.OnePoint | src/crypto/src/v0.rs:144-170 | a counter's hash leaves no choice: the ordinate is the one of the two roots that is itself a square |
| HashToG1.NotBothSquares | src/crypto/src/v0.rs:144-170 | modulo a prime that is 3 modulo 4 a unit and its negative are not both squares |
| HashToG1.Hash | src/crypto/src/v0.rs:144-170 | the loop finds the point of the first counter that has one, never the identity, and panics exactly when counters 0 to 10000 have none |
| EcdaaTheorems.CredentialRoundTrip | src/crypto/src/v1.rs:142-169 | a credential is read back from its four points |
| EcdaaTheorems.SignatureRoundTrip | src/crypto/src/v1.rs:205-236 | a signature of either length is read back through the verifier's offsets |
| EcdaaTheorems.GroupKeyRoundTrip | src/crypto/src/v1.rs:186-192 | an issuer's group key is read back from its two points exactly when both decode; the identity does in v1 and not in v0 |
| EcdaaTheorems.IssueHonest | src/crypto/src/v1.rs:328-401 | an honest member key passes the issuer's proof check; issuing then fails only for y = 0 and gives an honest credential |
| EcdaaTheorems.ScaleHonest | src/crypto/src/v1.rs:631-663 | re-randomising keeps a credential honest |
| EcdaaTheorems.RandomizedHonest | src/crypto/src/v1.rs:631-663 | any number of re-randomisations succeeds and keeps it honest; it dies exactly when a factor is zero |
| EcdaaTheorems.HonestPairings | src/crypto/src/v1.rs:513-530 | honest credentials satisfy both pairing equations |
| EcdaaTheorems.HonestNonIdentity | src/crypto/src/v1.rs:462-469 | no component is the identity exactly when the base, x, sk and 1/y + sk are non-zero |
| EcdaaTheorems.VerifyHonest | src/crypto/src/v1.rs:403-530 | the honest signature is accepted exactly when no component is the identity |
| EcdaaTheorems.CredentialVerdicts | src/crypto/src/v1.rs:403-751 | for an honest credential, what credential_in_group and verify answer, each as an if-and-only-if |
| EcdaaTheorems.EndToEnd | src/crypto/src/v1.rs:268-751 | keygen, issue, any re-randomisations, sign, verify: accepted if and only if the run is non-degenerate, also against exactly that credential when signing does not randomise |
| EcdaaTheorems.AcceptedCarriesCredential | src/crypto/src/v1.rs:665-751 | whatever verify accepts carries a credential that is in the group, and equal to the required one if one was required |
| CredentialTheorems.PairingsIff | src/crypto/src/v1.rs:513-530 | the two pairing equations hold if and only if a·y = b and (a + d)·x = c modulo the order |
| CredentialTheorems.InGroupIff | src/crypto/src/v1.rs:692-751 | credential_in_group accepts, of all strings, exactly those that decode to what an issuer with that key gives out for some secret, not scaled by zero |
| CredentialTheorems.InGroupEquations | src/crypto/src/v1.rs:692-751 | the same by the components |
| CredentialTheorems.VerifyIff | src/crypto/src/v1.rs:403-533 | verify accepts, of all inputs, exactly those that decode, carry a live honest credential for some secret and, if required, that very credential, and whose challenge fits the commitment this secret explains |
| CredentialTheorems.AcceptedIffSigned | src/crypto/src/v1.rs:403-533 | without a basename the accepted signatures are exactly those that a holder of a live credential for some secret makes with some nonce |
| CredentialTheorems.AcceptedWasIssued | src/crypto/src/v1.rs:403-533 | every accepted signature carries a credential issued under the group key |
| CredentialTheorems.ProofIff | src/crypto/src/v1.rs:348-361 | the issuer's check accepts exactly the proofs made with some secret and some nonce |
| CredentialTheorems.IssueIff | src/crypto/src/v1.rs:328-401 | issue_credential answers exactly the member keys that prove some secret, and gives out the credential for that secret |
| CredentialTheorems.GeneratedWith | src/crypto/src/v1.rs:268-301 | a generated key is proved with the very secret and nonce drawn |
| CredentialTheorems.SignedWith | src/crypto/src/v1.rs:532-629 | a signature's response explains the very nonce drawn, and its challenge and pseudonym are those of that nonce and the secret |
| Randomizing.RandomizedParts | src/crypto/src/v1.rs:631-666 | randomize_credential fails on what does not decode and otherwise gives the l-fold of each component |
| Randomizing.FactorsShow | src/crypto/src/v1.rs:631-666 | two factors give the same bytes if and only if they are equal |
| Randomizing.RandomizedBack | src/crypto/src/v1.rs:631-666 | a non-zero factor followed by its inverse restores every byte |
| Randomizing.ManyFold | src/crypto/src/v1.rs:631-666 | any number of re-randomisations is one, by the product of the factors |
| Randomizing.SignedCarries | src/crypto/src/v1.rs:566-577 | the credential carried by a signature is the holder's, or the l-fold of each of its components when signing randomises |
| Randomizing.SignedFactorsShow | src/crypto/src/v1.rs:566-577 | signatures by one holder that carry the same credential were made with one factor |
| Randomizing.FoldHides | src/crypto/src/v1.rs:631-666 | of two live credentials for one issuer key and secret each is a fold of the other by exactly one factor |
| Randomizing.IssuerSignature | src/crypto/src/v1.rs:382-399 | the issuer's signature is two scalars: the response explains the nonce drawn, and the challenge is recomputed from it, the nonce's point times y and the member's point, hashed twice |
| Randomizing.CredentialLayout | src/crypto/src/v1.rs:155-168 | offsets of the four points |
| Randomizing.KeyLayouts | src/crypto/src/v1.rs:268-326 | offsets and lengths in issuer and member keys of either version |
| Randomizing.SignatureFields | src/crypto/src/v1.rs:609-626 | offsets and lengths in a signature of either version |
| Randomizing.TranscriptLayout | src/crypto/src/v1.rs:579-603 | which elements are hashed, and where in the input each lies |
| Randomizing.DeflatedParts | src/crypto/src/v1.rs:676-683 | what deflating leaves: challenge, response, replay nonce and pseudonym |
| EcdaaTheorems.InflateUndoesDeflate | src/crypto/src/v1.rs:676-690 | deflating and inflating with the carried credential restores every byte |
| EcdaaTheorems.SpecialSoundness | src/crypto/src/v1.rs:482-511 | two accepted signatures with shared S, W and commitments but different challenges give the one e with W = S·e, and K = base·e for the same e |
| EcdaaTheorems.HonestExtraction | src/crypto/src/v1.rs:579-607 | for honest responses that e is the secret key |
| EcdaaTheorems.PseudonymLinks | src/crypto/src/v1.rs:589-597 | under one non-identity basename, pseudonym bytes agree if and only if the secrets do |
| Binding.ChallengeBinds | src/crypto/src/v1.rs:482-511 | as long as the hash tells the hashed inputs apart, equal challenges mean equal commitment, credential points, message, pseudonym and nonce |
| Binding.SignatureBinds | src/crypto/src/v1.rs:403-511 | one signature string is accepted for one message and one basename point only; with a basename once and without once, for a message and its extension |
| Binding.AcceptedWithout | src/crypto/src/v1.rs:403-511 | acceptance with a basename holds if and only if the message is not empty and the extended message is accepted without one, for every string whose pseudonym decodes and with no hypothesis on the hash |
| Binding.SignatureBindsAcross | src/crypto/src/v1.rs:482-511 | given an acceptance with a basename, the one message accepted without is the extended one, under whatever group key and credential |
| Binding.MemberKeyBindsNonce | src/crypto/src/v1.rs:354-361 | a member key's proof is accepted under one nonce only |
| Binding.IssuedInGroup | src/crypto/src/v1.rs:328-401 | for any accepted member key, honest or not, the issued credential is in the issuer's group if and only if the nonce's point is not the identity and the group key decodes |
| Ecdaa.Sign | src/crypto/src/v1.rs:532-629 | sign writes the specified signature and leaves its output alone when it fails |
| SplitEcdaa.MockCard.SignCommit | src/crypto/src/v1.rs:850-879 | commitments for the drawn nonce; the nonce is replaced even when the basename point does not decode |
| SplitEcdaa.MockCard.Respond | src/crypto/src/v1.rs:881-902 | at most one answer per nonce, r + c·sk |
| SplitEcdaa.MockCard.JoinCommit | src/crypto/src/v1.rs:890-895 | the join commitment |
| SplitEcdaa.Exchange | src/crypto/src/v1.rs:998-1103 | the two-phase exchange produces the signature of the summed secret under the summed nonce |
| SplitEcdaa.SignSplitExt | src/crypto/src/v0.rs:1368-1503 | byte for byte what sign writes under card_sk + host_sk and r_card + r_host, with and without basename, error cases included |
| SplitEcdaa.SignSplit | src/crypto/src/v1.rs:959-1103 | the same for sign_split |
| SplitEcdaa.GenerateSplitWalletKeypair | src/crypto/src/v1.rs:912-957 | the interactive join publishes the key of the summed secret and nonce |
| SplitEcdaa.StagedJoin | src/crypto/src/v1.rs:1240-1312 | the staged join publishes the same key |
| SplitEcdaa.SplitKeyProofIff | src/crypto/src/v1.rs:760-784 | for an honestly joined key, verify_split_key_proof says exactly that both shares and the base are non-zero |
| SplitChain.TtcRound | src/integration/src/lib.rs:715-744 | the TTC half of the chain gives the whole-key public key and the combined point |
| SplitChain.NacRound | src/integration/src/lib.rs:747-776 | the NAC half does under that point as nonce, without disturbing the TTC half |
| SplitChain.ChainedJoin | src/integration/src/lib.rs:687-827 | both keys are those of single parties holding the summed secrets |
| SplitChain.ChainedKeysIssue | src/crypto/src/v1.rs:354-361 | both keys pass the issuer's proof check under the nonces the chain used |
| SplitChain.ChainedNacRefused | src/registrar/src/server.rs:452-463 | under the whole TTC public key as nonce the issuer refuses the chained NAC key, whatever issuer key it uses, if the hash tells the two inputs apart |
| SplitChain.SplitLife | src/crypto/src/v1.rs:912-1103 | join, issue, sign together, verify: accepted exactly when the summed secret's run is non-degenerate |
| BloomFilter.BloomFilter.SetBit | src/javacard/applet/BloomFilter.java:107-109 | sets one position and no other |
| BloomFilter.PositionsIff | src/javacard/applet/BloomFilter.java:78-90 | the positions of an element are exactly the first seven two-byte words of its digest modulo 9585 |
| BloomFilter.BloomFilter.CheckAndAdd | src/javacard/applet/BloomFilter.java:73-113 | answers "used" exactly when all positions are set; the set of positions becomes the union |
| BloomFilter.BloomFilter.ResetForEpoch | src/javacard/applet/BloomFilter.java:122-129 | clears the set and moves the epoch exactly when the epoch is newer |
| Applet.BrioletteApplet.Process | src/javacard/applet/BrioletteApplet.java:242-328 | the applet object, on its shared buffer and fields, does exactly one step of the card's step function and keeps its invariant |
| Applet.BrioletteApplet.WriteCommitment | src/javacard/applet/BrioletteApplet.java:425-445 | the three in-place multiplications leave the specified commitment bytes, the third taken of overlaid bytes |
| Applet.BrioletteApplet.CheckCommit | src/javacard/applet/BrioletteApplet.java:384-419 | length, swap and filter checks in the code's order; only an accepted basename enters the filter |
| Applet.BrioletteApplet.ProcessSignCommit | src/javacard/applet/BrioletteApplet.java:384-445 | SIGN_COMMIT in its three modes |
| Applet.BrioletteApplet.ProcessRespond | src/javacard/applet/BrioletteApplet.java:513-582 | SIGN_RESPOND and JOIN_RESPOND answer, zero the nonce and close the session |
| Applet.BrioletteApplet.ProcessJoinCommit | src/javacard/applet/BrioletteApplet.java:538-557 | JOIN_COMMIT |
| Applet.BrioletteApplet.ProcessResetBloom | src/javacard/applet/BrioletteApplet.java:588-624 | RESET_BLOOM, authorised when a reset key is set |
| Applet.BrioletteApplet.ProcessGetStatus | src/javacard/applet/BrioletteApplet.java:674-696 | the six status bytes are the flags, the epoch and the curve of the state |
| Applet.BrioletteApplet.ProcessMfrGenerateKey | src/javacard/applet/BrioletteApplet.java:707-720 | MFR_GENERATE_KEY answers once, with the public key |
| Applet.BrioletteApplet.ProcessMfrSetCert | src/javacard/applet/BrioletteApplet.java:736-756 | MFR_SET_CERT stores 1 to 72 bytes before personalization only |
| Applet.BrioletteApplet.WriteAttestation | src/javacard/applet/BrioletteApplet.java:789-808 | length, signature, length, certificate and key, written over the challenge they answer |
| Applet.BrioletteApplet.ProcessMfrAttest | src/javacard/applet/BrioletteApplet.java:774-809 | MFR_ATTEST and its refusals |
| Applet.BrioletteApplet.DeselectApplet | src/javacard/applet/BrioletteApplet.java:184-222 | deselecting clears the nonce and the session |
| CardRuns.StepLegal | src/javacard/applet/BrioletteApplet.java:242-328 | every command and deselect keeps the invariant and moves session, filter and epoch only as allowed |
| CardRuns.RunExists | src/javacard/applet/BrioletteApplet.java:242-328 | every sequence of events has a run |
| CardRuns.RefusalKeepsState | src/javacard/applet/BrioletteApplet.java:242-328 | a command answered with an error status leaves the state, an open session included, except for the personalized mark of a commit |
| CardRuns.FaultEffects | src/javacard/applet/BrioletteApplet.java:421-445 | a command that ends in an exception: before a nonce was drawn like a refusal; after, it has opened a session on the new nonce and entered a basename, and changed nothing else; CommitFaults says for which operands |
| CardRuns.FixedForLife | src/javacard/applet/BrioletteApplet.java:334-668 | share and curve never change once generated; authorisation keys and certificate never change once personalized |
| CardRuns.SessionHasOrigin | src/javacard/applet/BrioletteApplet.java:421-423 | the open session is that of the latest commit with no answer or deselect since |
| CardRuns.ResponseBelongs | src/javacard/applet/BrioletteApplet.java:513-582 | every response answers the latest commit, of its own kind, as r + c·sk for that nonce and the one share |
| CardRuns.OneAnswerPerNonce | src/javacard/applet/BrioletteApplet.java:513-582 | two responses stem from different commits, in order |
| CardRuns.FilterIsUnion | src/javacard/applet/BloomFilter.java:73-129 | in every run the filter is the union of the positions of the basenames accepted since the last reset |
| CardRuns.UsedIffCovered | src/javacard/applet/BrioletteApplet.java:415-419 | a well-formed basename commit is refused as used if and only if its positions are covered |
| CardRuns.BitIff | src/javacard/applet/BloomFilter.java:73-129 | in every run a bit is set if and only if it is a position of some basename that passed since the last reset |
| CardRuns.UsedIffWordsTaken | src/javacard/applet/BrioletteApplet.java:415-419 | a well-formed basename commit is refused as used if and only if each of its seven words agrees modulo 9585 with some word of some basename accepted since the last reset |
| CardRuns.NoBasenameTwice | src/javacard/applet/BrioletteApplet.java:405-419 | no basename passes twice without a successful reset in between |
| CardRuns.EpochMoves | src/javacard/applet/BloomFilter.java:122-129 | the epoch moves only at successful resets and strictly upwards |
| CardRuns.ResettingEpochs | src/javacard/applet/BrioletteApplet.java:588-624 | an authorised epoch resets the filter if and only if, unsigned, it exceeds the card's and is below 2^31 |
| CardRuns.Capacity | src/javacard/applet/BloomFilter.java:78-112 | accepted ≤ set bits ≤ 7·accepted, and at most 9585 basenames pass between resets |
| CardHistory.KeyHistory | src/javacard/applet/BrioletteApplet.java:334-362 | the key is the draw of the one successful GENERATE_KEY modulo the order of the curve that its p1 names |
| CardHistory.ConfigurationHistory | src/javacard/applet/BrioletteApplet.java:630-668 | swap key, reset key and certificate are the data of the last successful command for each; the manufacturer key exists once generated |
| CardHistory.EpochHistory | src/javacard/applet/BrioletteApplet.java:588-624 | the epoch is that of the last successful reset |
| CardHistory.PersonalizedHistory | src/javacard/applet/BrioletteApplet.java:384-390 | the card is personalized exactly from its first addressed commit on, refused or not |
| CardHistory.SucceedsIff | src/javacard/applet/BrioletteApplet.java:242-809 | in every run a command other than a commit succeeds exactly under the condition stated for it |
| CardHistory.PlainReplies | src/javacard/applet/BrioletteApplet.java:334-756 | what the successful ones answer |
| CardHistory.StatusWordsIff | src/javacard/applet/BrioletteApplet.java:242-328 | the status words for class, curve, unknown command, personalized card and missing manufacturer key or certificate, each with its exact condition |
| CardHistory.StatusReports | src/javacard/applet/BrioletteApplet.java:674-696 | every flag of GET_STATUS says whether the command it stands for has succeeded; epoch and curve are read back |
| CardHistory.AttestationReports | src/javacard/applet/BrioletteApplet.java:774-809 | signature, certificate and key are found in the attestation behind their lengths |
| CardArithmetic.ArithmeticRealisesGroup | src/javacard/applet-sim/ECMath.java:85-149 | the card's byte arithmetic computes in the host's group |
| CardArithmetic.JoinMatches | src/javacard/applet/BrioletteApplet.java:364-582 | key share, join commit and join response answer the protocol card's bytes |
| CardArithmetic.SignMatches | src/javacard/applet/BrioletteApplet.java:384-532 | sign commit and response without a basename do |
| CardArithmetic.BasenameCommitMatches | src/javacard/applet/BrioletteApplet.java:425-445 | with a basename the first two outputs do, and the third is the multiple of the overlaid bytes |
| CardProtocol.CardSigns | src/crypto/src/v0.rs:1368-1503 | host steps against the card's commands give the honest signature of the summed secret |
| CardProtocol.CardJoins | src/crypto/src/v1.rs:1240-1312 | host steps against the card's join commands give the whole public key |
| CardArithmetic.FaultReplacesSession | src/javacard/applet/BrioletteApplet.java:538-557 | JOIN_COMMIT on BN254 with (0, p) throws after opening its session |
| CardProtocol.ThirdOutputDecides | src/crypto/src/v1.rs:482-511 | for a decoded third output, the signature is honest when it is right, and otherwise the challenge matches only if two different hash inputs collide |
| CardProtocol.CardRefusesBasename | src/crypto/src/v0.rs:1368-1503 | a covered basename ends the run with BloomFilterHit and leaves the state but for the personalized mark |
| CardProtocol.CardRefusesToken | src/crypto/src/v0.rs:1414-1423 | a token the card does not accept ends the run with the error for its reason |
| CardProtocol.CardSignsWithBasename | src/crypto/src/v0.rs:1368-1503 | a commit that passes the filter, or whose token is accepted, to its end: an exception of the card, Other(0) when the third output does not decode, or the signature assembled with the element it encodes |
| Overlap.ThirdOutputIff | src/javacard/applet/BrioletteApplet.java:428-441 | on both curves, for every basename, share and nonce, when the third output is the basename's multiple |
| Overlap.ThirdOutputOnBN254 | src/javacard/applet/BrioletteApplet.java:428-441 | on BN254: if and only if the nonce is zero, the bytes still read as the basename, or the nonce is at least two and they do once reduced |
| Overlap.ThirdOutputOnBLS381 | src/javacard/applet/BrioletteApplet.java:428-441 | on BLS12-381: bytes read as null are wrong unless the nonce is zero, bytes read as a point of the group are right only for the basename |
| Overlap.ThirdOutputMisses | src/javacard/applet/BrioletteApplet.java:428-441 | generator as basename, share and nonce 1: the card multiplies (2^40, 2^41 + 2) and answers another point |
| CommitFaults.FailureReplacesSession | src/javacard/applet/BrioletteApplet.java:384-557 | in every run a command fails and still changes the session if and only if it is a commit that passes its checks and one of its multiplications throws, as decided from its bytes, its nonce and the share |
| CommitFaults.ThrowsByOrder | src/javacard/applet-sim/ECMath.java:85-118 | for bytes that reduce to a point of the curve, the order of that point decides |
| CommitFaults.HarmlessCommit | src/javacard/applet/BrioletteApplet.java:384-557 | with coordinates below p, or that reduce to a point of the group, a failing JOIN_COMMIT or SIGN_COMMIT without basename leaves the session alone |
| CommitFaults.HarmlessOnBN254 | src/javacard/applet-sim/ECMath.java:85-118 | on BN254 bytes that reduce to any point of the curve never throw |
| CommitFaults.JoinThrowsOnBLS381 | src/javacard/applet/BrioletteApplet.java:538-557 | JOIN_COMMIT on BLS12-381 with (p, 2) throws after opening its session, for every nonce that begins with two ones |
| BasenameVerdict.ThirdOutputPoints | src/javacard/applet/BrioletteApplet.java:428-441 | the third output is the encoding of the intended element if and only if that condition holds of the points |
| BasenameVerdict.OutcomeVerdict | src/crypto/src/v0.rs:1368-1503 | the run over the card yields a signature that verify accepts if and only if the third output is the intended encoding and the credential is live |
| BasenameVerdict.BasenameVerdict | src/crypto/src/v0.rs:1368-1503 | the same with the condition on the points, from SIGN_COMMIT_BSN or SIGN_COMMIT_SWAP to the verifier |
| BasenameVerdict.OffCurveFails | src/crypto/src/v0.rs:1368-1503 | on BN254 overlaid bytes off the curve make the run fail, unless the answer is the identity's encoding |
| BasenameVerdict.ThirdOutputThrows | src/javacard/applet/BrioletteApplet.java:428-441 | the card throws on a well-formed commit with a basename if and only if double-and-add does on the overlaid coordinates, and not when they reduce to a point of the group |
| BasenameVerdict.RecoveryVerdict | src/crypto/src/v0.rs:952-1503 | after a basename hit, a token created by the swap server and the commit with it: the signature verifies if and only if the overlaid bytes do for the basename and the credential is live |
| SwapAuth.AuthorizationRoundTrip | src/crypto/src/v0.rs:912-928 | exactly the 64-byte strings parse, and serialising undoes parsing |
| SwapAuth.CreatedVerifies | src/crypto/src/v0.rs:952-1011 | every created authorisation verifies |
| SwapAuth.CreatedWith | src/crypto/src/v0.rs:952-970 | a token's response explains the very nonce drawn and its challenge is the hash of that commitment, the basename point and the public key |
| SwapAuth.CardAgrees | src/javacard/applet/BrioletteApplet.java:458-507 | on reduced scalars and encoded points the card's check answers exactly what swap_auth_verify answers |
| SwapAuth.SwapCommitDecided | src/javacard/applet/BrioletteApplet.java:405-414 | a well-formed swap commit is let through exactly when the host's check accepts, without consulting the filter |
| SwapAuth.CreatedAccepted | src/javacard/applet/BrioletteApplet.java:458-507 | the card's check accepts every token created with the secret of its key |
| SwapAuth.CreatedOpensSession | src/crypto/src/v0.rs:952-972 | every token the host creates under the card's swap key is accepted by the card |
| SwapAuth.AuthIff | src/javacard/applet/BrioletteApplet.java:447-507 | the card's check, for every input: the challenge is the reduced hash of the recomputed commitment, the context and the key |
| TokenBinding.AuthBinds | src/javacard/applet/BrioletteApplet.java:447-507 | an authorisation accepted for two contexts shows two inputs with one hash |
| TokenBinding.TokenForOneBasename | src/javacard/applet/BrioletteApplet.java:405-414 | in every run a swap token opens sessions for one basename only, or shows such a collision |
| TokenBinding.ResetsOnce | src/javacard/applet/BrioletteApplet.java:588-624 | in every run a reset signature resets the filter once, or shows such a collision |
| TokenBinding.HostAuthIff | src/crypto/src/v0.rs:982-1011 | the host's check, for every input |
| TokenBinding.HostTokenBinds | src/crypto/src/v0.rs:982-1011 | a token that the host accepts for two basename points shows a collision |
| RateLimit.Bucket.TryConsume | src/proto/src/rate_limit.rs:60-74 | refills up to the burst and takes a token if there is one |
| RateLimit.RateLimiter.FindOldest | src/proto/src/rate_limit.rs:99-104 | finds an entry with the oldest refill whatever the order of iteration |
| RateLimit.RateLimiter.Check | src/proto/src/rate_limit.rs:94-113 | evicts an oldest entry only for want of room, then serves the address; no other bucket is touched |
| RateLimitRuns.TokensBounded | src/proto/src/rate_limit.rs:60-74 | in every run tokens lie in [0, burst] |
| RateLimitRuns.TableBounded | src/proto/src/rate_limit.rs:94-113 | in every run the table holds at most max(1, max_entries) entries |
| RateLimitRuns.EvictionUnobservable | src/proto/src/rate_limit.rs:94-113 | if every evicted bucket would have been full, every answer is that of an unbounded table |
| RateLimitRuns.IdleEvictionUnobservable | src/proto/src/rate_limit.rs:94-113 | in particular if every evicted bucket was idle for burst/per_second |
| RateLimitRuns.EvictionObservable | src/proto/src/rate_limit.rs:94-113 | once a bucket that is not full has been lost, some continuation of the run gets a different answer |
| RateLimitRuns.FirstLossObservable | src/proto/src/rate_limit.rs:94-113 | as soon as the first bucket that is not full has been evicted, some continuation gets an answer an unbounded table would not give |
| RateLimitRuns.BurstTellsApart | src/proto/src/rate_limit.rs:60-74 | a burst of checks passes a bucket entirely if and only if it is full |
| RateLimitRuns.WindowBound | src/proto/src/rate_limit.rs:60-74 | an address not evicted in a window is allowed at most burst + per_second·length checks in it |
| RateLimitAnswers.TableIff | src/proto/src/rate_limit.rs:94-113 | in every run the table holds exactly the addresses checked and not evicted since, as the last check left them |
| RateLimitAnswers.AllowedIff | src/proto/src/rate_limit.rs:60-113 | in every run a check is allowed if and only if the tokens left by the last check plus per_second for every second since, up to the burst, are at least one, and it then takes one; a new address finds a whole burst |
| RateLimitAnswers.AllowedInTime | src/proto/src/rate_limit.rs:60-113 | with a burst of at least one, a check 1/per_second or more after the last is allowed |
| RateLimitAnswers.EvictedIff | src/proto/src/rate_limit.rs:94-107 | an address is evicted if and only if the table is full and the address asked for is new, and it is one whose last check is least recent |
| Amounts.AddIsExact | src/proto/src/briolette/token.rs:628-641 | addition succeeds exactly within a currency, is exact in micros, and carries whole units out of the fraction, which keeps the sign of the fractions' sum |
| Amounts.Add32ExactIff | src/proto/src/briolette/token.rs:628-641 | on 32-bit fields the wrapped sum is exact, and then the unbounded one, if and only if neither final sum overflows |
| Amounts.Total32Iff | src/receiver/src/server.rs:400-408 | on amounts as the format prescribes the wrapped running total is the unbounded one if and only if the tokens are worth less than 2^31 units |
| Amounts.TotalIsExact | src/receiver/src/server.rs:400-408 | the running total exists exactly when every token is in the default currency, and is exact |
| Amounts.AcceptsTransfer | src/receiver/src/server.rs:400-434 | the transfer loop accepts exactly tokens that all went to our ticket and total the amount |
| Amounts.AcceptsProposal | src/receiver/src/server.rs:317-338 | the proposal loops accept exactly verified methods that total the amount |
| Receiver.StepKeeps | src/receiver/src/server.rs:144-459 | every step of every handler and timer keeps the invariant |
| ReceiverRuns.EntriesCarryOrigin | src/receiver/src/server.rs:144-459 | whatever is stored under an id at any time has the amount and peer fixed at initiate |
| ReceiverRuns.WhoChangesEntries | src/receiver/src/server.rs:246-459 | an entry changes only by its own peer's requests and disappears only by its own timer |
| ReceiverRuns.FreshId | src/receiver/src/server.rs:144-146 | the id drawn is new and nobody else holds it |
| ReceiverRuns.TimerNeverPanics | src/receiver/src/server.rs:198-205 | in no run does the timer's unwrap fail |
| ReceiverRuns.StateIgnored | src/receiver/src/server.rs:246-253 | the reading step does not depend on the entry's state |
| ReceiverRuns.WalletConserved | src/receiver/src/server.rs:436-455 | when no push is in progress the wallet is worth its start plus the initiated amounts of the accepted transfers |
| ReceiverOrphans.NoOrphans | src/receiver/src/server.rs:185-222 | if no removal meets a handler that can still write, no entry outlives its timer |
| ReceiverOrphans.DirtyRemovalOrphans | src/receiver/src/server.rs:185-222 | if one does, the run can go on to leave an entry without a timer |
| ReceiverOrphans.OrphanStays | src/receiver/src/server.rs:185-222 | and such an entry stays for ever |
| ReceiverOrphans.OrphanReachable | src/receiver/src/server.rs:246-280 | a concrete run that does so |
| ReceiverOrphans.TransferAfterInitiate | src/receiver/src/server.rs:349-459 | a concrete run in which a transfer is accepted straight after initiate |
| ReceiverProgress.TimerEnds | src/receiver/src/server.rs:185-222 | in every run, while no handler writes its entry, a live timer has removed the entry and ended if and only if it has taken the number of steps its state determines, at most five |
| ReceiverProvenance.PastMeansChecked | src/receiver/src/server.rs:246-459 | in every run a handler that has got past its check has passed it: tokens or update verified, amounts as agreed |
| ReceiverProvenance.EntriesEarned | src/receiver/src/server.rs:246-459 | in every run a complete entry has an accepted transfer, and one waiting for its transfer a finished proposal, for that id |
| ReceiverProvenance.StartOf | src/receiver/src/server.rs:144-283 | in every run an entry asks for gossip only if initiate found the epochs to differ, and skips it only if initiate did not or a gossip request for it has been accepted |
| ReceiverProvenance.PushedWasOurs | src/receiver/src/server.rs:400-455 | in every run the tokens a transfer handler pushes all went to the ticket it checked against and total the initiated amount |
| ReceiverHandlers.BrioletteReceiver.NextAmount | src/receiver/src/server.rs:109-115 | sets the amount the next initiate asks for, in the default currency, exactly below 2^31 whole units |
| ReceiverHandlers.BrioletteReceiver.Initiate | src/receiver/src/server.rs:117-168 | stores the priced entry under a fresh id and answers with id, epoch, ticket and amount, or refuses and changes nothing |
| ReceiverHandlers.BrioletteReceiver.GossipImpl | src/receiver/src/server.rs:226-283 | the gossip handler, undisturbed: only a newer update is synchronised to, without one our epoch is sent back |
| ReceiverHandlers.BrioletteReceiver.TransactImpl | src/receiver/src/server.rs:284-347 | the transact handler, undisturbed |
| ReceiverHandlers.BrioletteReceiver.TransferImpl | src/receiver/src/server.rs:349-459 | the transfer handler, undisturbed: all tokens are pushed or none |
| ReceiverHandlers.InitiateAlone | src/receiver/src/server.rs:117-222 | initiate's steps, run alone, price, number and store the entry and start its timer |
| ReceiverHandlers.Undisturbed | src/receiver/src/server.rs:226-459 | the interleaved task steps, run alone, do what the handler does |

## Left out

- Library internals of curves in Rust, pairings, hash-to-curve of v1, SHA-256, ECDSA, DER, CBOR and X.509: arbitrary functions with stated contracts.
- Unforgeability and anonymity: computational claims.
- Curve.LadderIsMultiple: takes associativity of the curve's law as a hypothesis.
- RawCurve.LadderDecides: takes associativity, and that the base has prime order, as hypotheses.
- GroupLaw.AddUndone: is about moduli above 3 and b not divisible by them, as on both shipped curves; on the singular curve it is false at (0, 0).
- CredentialTheorems.IssueIff: is about nonces whose point is not the identity; under the identity a proof says nothing of a secret.
- LadderFaults.ThrowsInGroup: takes associativity on the operand's own curve as a hypothesis; LadderFaults.ThrowsIff does not.
- SplitChain.ChainedNacRefused: assumes that the hash tells apart the two inputs hashed.
- BasenameVerdict.RecoveryVerdict: starts from a token made for the basename point; what the wallet sends to the swap server is not part of this model.
- ECMath.ShippedCurvesSound: takes primality of the two moduli as a hypothesis.
- BasenameVerdict.BasenameVerdict: assumes that the hash tells apart the two inputs hashed, and that nothing but encodings decodes, as in both versions.
- Ecdaa.Sign: a credential shorter than its four points, and a group key or issuer key that is too short, make the Rust code panic on slicing; they are preconditions.
- SplitEcdaa.SignSplitExt: v1's sign_split_ext and sign_split repeat one body, which is modelled once.
- Applet.BrioletteApplet.Process: the card's share and nonce are numbers instead of 32-byte arrays; the attestation key and its signatures are arbitrary bytes of at most the right length.
- RateLimitRuns.WindowBound: tokens and times are reals, so floating-point rounding is not modelled.
- RateLimit.RateLimiter.Check: the mutex makes a check atomic, which is taken for granted.
- Amounts.AddIsExact: is about unbounded fields; Amounts.Add32ExactIff says when the 32-bit ones agree, compiled without overflow checks. With checks the handler panics instead of wrapping.
- ReceiverRuns.WalletConserved: is about unbounded amounts, which by Amounts.Total32Iff is what the code computes for totals below 2^31 units.
- Receiver.StepKeeps: what verifying tokens or an epoch update yields is an arbitrary verdict, changing neither held tokens nor the table; ids do not wrap around; requests that lack required fields, on which handlers panic, appear as handlers that fail before touching the wallet.
- ReceiverHandlers.BrioletteReceiver.Initiate: the spawning of the timer, which is a step of the interleaved model; epoch updates are represented by their epochs, tickets by their credentials.
- The applet for real cards (applet-hw), gRPC and HTTP layers, mobile bindings, key files and command lines: wrappers around the modelled code or input and output.
- Wallet, token map, validator, mint and swapper logic.
- The revoked-group bitmap: writer and reader use different bit orders, so there is no agreement to prove.
- Deposit processors, recovery bindings and registrar tier selection: would add only easy members.
