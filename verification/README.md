# Flexible-threshold signatures, verified

A Dafny model of the `fussion` threshold-signature system and of two algorithms it ships with.

An authority picks linear factors `d_i * x + b_i` modulo the group order `q` and gives every signer the
ElGamal-encrypted values of those factors at the signer's identity. For threshold `t` a signer multiplies
its first `t - 1` ciphertexts and uses the product as a BLS signing scalar. The aggregator re-randomises
the partial signatures and re-encrypts their auxiliary values for one verifier with a key
`rk = alpha / H(PK_v^alpha) mod (q - 1)`. The verifier strips the encryption, interpolates at zero and
makes one pairing test against the public key of the threshold. The main theorem is that every quorum
with distinct non-zero identities passes it, for every threshold, key, message and random draw; around it
stand the exact conditions for everything else, and the same statement over all runs of the four programs.

The files, from the bottom up:

- `Options.dfy`, `Arithmetic.dfy`, `Sequences.dfy`, `Fermat.dfy`: congruences, gcd and inverses, powers,
  sums and products, Fermat's little theorem.
- `Lagrange.dfy`, `InterpolationCoefficients.dfy`: interpolation at zero modulo a prime, and the two ways
  the repository computes its coefficients.
- `CoprimeHash.dfy`: the coprimality filter on `q - 1` and the loop that repairs a hash.
- `Scheme.dfy`: the operations of `src/fussion.cpp`, each proved against a function of its inputs.
- `Correctness.dfy`, `Pipeline.dfy`: what those functions achieve together; the whole pipeline.
- `Protocol.dfy`, `Nodes.dfy`: the four parties as a state machine, their programs as classes, and the
  proof that the programs run together are runs of the machine.
- `BigInverse.dfy`: the extended Euclid loop of `src/Tools/Tools.cpp`.
- `Amf.dfy`: the chunked AMF reader and writer. `Coroutine.dfy`: the suspend/done handshake.

How the model reads the source:

- Points of the three pairing groups are their discrete logarithms: multiplying a point is multiplying
  residues modulo `q`, adding points is adding residues, the pairing is the product. A scalar must fit the
  32 bytes that `mpz_to_BIG` keeps (`src/Tools/Tools.cpp:66-80`); every scalar of the scheme is proved to.
- `hashToZp256` is an arbitrary function. `hashToPoint` multiplies the generator by that hash
  (`src/Tools/Tools.cpp:173-187`).
- Every random draw is an input. `rand_mpz` draws from `[1, q]` although its comment says it avoids zero
  (`src/Tools/Tools.cpp:112-117`): `q` itself can be drawn, so generators and identities that are zero
  modulo `q` are part of the model.
- `q` is any `GroupOrder`: a prime below 2^256 such that the twelve listed factors are prime and are the
  prime divisors of `q - 1`. For the order of BLS12-381 (section 4.2.1 of
  draft-irtf-cfrg-pairing-friendly-curves) the factorisation is proved; the primality of the order and of
  the twelve factors is the only number-theoretic hypothesis.
- GMP's `%` keeps the sign of the dividend; `TruncMod` models it where a dividend can be negative.
- `hashToCoprime` does not always terminate. `Hashable` is exactly the condition under which it does, and
  it stands wherever the hash is taken.
- A call between programs either succeeds or fails; a step that would read outside a vector or reduce
  modulo zero (an unregistered signer asked to sign, for instance) is not a step of the state machine.
  Only the verifier's own reading of a delivery that is too short is kept, as a result of its program.
- The `main` functions of the authority, the signer and the aggregator stand in their files as comments; the
  order of calls in `Nodes.dfy` is taken from them.
- Where `amf.h` says `check_emptiness` returns true if the stream is empty, the code returns false on an
  empty stream that still holds empty chunks; the model follows the code and states the difference.

## Model

| member | source | states |
|---|---|---|
| `CoprimeHash.GetFactors` | src/fussion.cpp:11-20 | the list built by the loop is the factor list everything else refers to |
| `CoprimeHash.IsCoprime` | src/fussion.cpp:22-27 | true exactly when no listed factor divides the number |
| `CoprimeHash.FilterIsGcd` | src/fussion.cpp:11-27 | the filter is complete: for any number whose prime divisors are the factors, passing the filter is having gcd 1 with it |
| `CoprimeHash.CurveOrderFactorization` | src/fussion.cpp:13-13 | the listed factors, with their powers, multiply to the BLS12-381 order minus one |
| `CoprimeHash.CurveOrderIsGroupOrder` | src/fussion.cpp:44-46 | the curve's order meets every condition the scheme needs, given primality alone |
| `CoprimeHash.FilteredHashInvertible` | src/fussion.cpp:155-158 | `invert_mpz` modulo `q - 1` reports "no inverse" exactly for hashes the filter rejects; the others get a true inverse |
| `CoprimeHash.RepairWithin` | src/fussion.cpp:32-34 | from a hash that is no multiple of 254760293 the loop stops within 80 steps |
| `CoprimeHash.RepairTerminatesIff` | src/fussion.cpp:29-36 | the loop can stop exactly when the starting hash is no multiple of 254760293 |
| `CoprimeHash.RepairDiverges` | src/fussion.cpp:31-34 | a concrete hash on which the loop never stops |
| `CoprimeHash.HashToCoprime` | src/fussion.cpp:29-36 | returns the first of `h, h + 254760293, ...` that no factor divides |
| `Arithmetic.Inverse` | include/Tools.h:104-110 | the inverse in `[0, m)` when the gcd is 1, and 0 exactly when it is not |
| `Arithmetic.InvertibleIsCoprime` | include/Tools.h:104-110 | an element with any inverse has gcd 1 with the modulus, so 0 is returned only when there is none |
| `BigInverse.BigInv` | src/Tools/Tools.cpp:202-230 | for every argument, fails exactly when it is above 1 and has no inverse; otherwise agrees with `invert_mpz`, except that it returns 1 for 0 where `invert_mpz` returns 0 |
| `BigInverse.FinishesIff` | src/Tools/Tools.cpp:213-227 | the loop reaches remainder 1 exactly from arguments whose gcd is 1; from the others it divides by zero |
| `BigInverse.FailingArgument` | src/Tools/Tools.cpp:213-227 | a concrete argument, 2 modulo 4, on which the loop divides by zero |
| `Fermat.ExponentsModOrder` | src/fussion.cpp:159-159 | exponents of a unit count modulo `q - 1`, which is why the re-encryption key is reduced by `q - 1` |
| `Lagrange.InterpolateAtZero` | src/fussion.cpp:184-212 | coefficients of `n` distinct nodes recover the constant term of every product of fewer than `n` linear factors |
| `Lagrange.CoefficientsUnique` | src/fussion.cpp:184-212 | the interpolation coefficients of distinct nodes are determined modulo `q` |
| `InterpolationCoefficients.FastPisAreCoefficients` | src/fussion.cpp:184-212 | the computed coefficients are the interpolation coefficients for distinct, non-zero identities |
| `InterpolationCoefficients.FastPiVanishes` | src/fussion.cpp:194-210 | a computed coefficient is zero exactly when some identity is zero or its own identity is repeated |
| `InterpolationCoefficients.FastRefinesSlow` | src/fussion.cpp:184-243 | for every identity list, the two overloads agree at a node exactly when it is not the only zero identity |
| `InterpolationCoefficients.SlowIsQuotient` | src/fussion.cpp:214-243 | the signs in numerator and denominator of the double loop cancel, for every identity list |
| `InterpolationCoefficients.RepeatedNodeFails` | src/fussion.cpp:184-212 | for any repeated identity, a key within the drawn range that is not recovered |
| `InterpolationCoefficients.ZeroNodeFails` | src/fussion.cpp:188-204 | with a zero identity a key is recovered exactly when its constant term is zero |
| `InterpolationCoefficients.AllRepeatedFails` | src/fussion.cpp:184-212 | if every identity is repeated a key is recovered exactly when its constant term is zero |
| `InterpolationCoefficients.UnrecoveredKey` | src/fussion.cpp:184-212 | for every list with a zero or repeated identity, a key within the drawn range and with non-zero constant term that it does not recover |
| `InterpolationCoefficients.InterpolationExact` | src/fussion.cpp:184-212 | an identity list recovers every key exactly when its identities are distinct and non-zero modulo `q` |
| `Scheme.Setup` | src/fussion.cpp:39-52 | parameters whose `beta` is zero modulo `q` exactly when `g` is, and on which both ends agree: `PK_v^alpha = beta^sk_v` for every verifier |
| `Scheme.GetPK` | src/fussion.cpp:55-65 | key `i` is the product of the first `i + 1` constants |
| `Scheme.GetUAV` | src/fussion.cpp:68-85 | ciphertext `i` is `g^u_i` and `beta^u_i * (d_i * id + b_i)` modulo `q` |
| `Scheme.Sign` | src/fussion.cpp:113-136 | the products of the first `t - 1` ciphertexts, the second one times the hash of the message itself |
| `Scheme.CollectSig` | src/fussion.cpp:139-147 | one partial signature of each of the first `t` signers, in order |
| `Scheme.AggSig` | src/fussion.cpp:149-181 | every signature re-randomised and its auxiliary value re-encrypted, with the repaired and inverted hash as key |
| `Scheme.GetDenominator` | src/fussion.cpp:195-202 | the product of the differences to the other identities, whatever sign GMP's remainder leaves |
| `Scheme.GetPi0` | src/fussion.cpp:184-212 | the coefficients with one shared product, for every identity list, in `[0, q)` |
| `Scheme.GetFraction` | src/fussion.cpp:219-234 | numerator and denominator of the textbook coefficient modulo `q`, and the sign of the numerator |
| `Scheme.GetPi0Textbook` | src/fussion.cpp:214-243 | the textbook coefficients modulo `q`, for every identity list, with the sign GMP's remainder leaves: negative only for an odd number of other identities above `q` |
| `Scheme.GetWeights` | src/fussion.cpp:255-262 | the coefficient divided by the stripped auxiliary value, per signature |
| `Scheme.CombinePoints` | src/fussion.cpp:263-271 | the weighted sum of the signature points, though the points are multiplied in place |
| `Scheme.Verify` | src/fussion.cpp:246-277 | 1 exactly when the pairing of the combined point equals that of the message point and the key of the threshold |
| `Correctness.PublicKeyIsConstantTerm` | src/fussion.cpp:275-275 | the key used at threshold `t` exists and is the constant term of the polynomial that threshold signs with |
| `Correctness.HomomorphicShare` | src/fussion.cpp:117-120 | the first `k` ciphertexts multiply to an encryption of the product of the first `k` factors, for every `k`: one key serves every threshold |
| `Correctness.SignedIsHonest` | src/fussion.cpp:113-136 | signing with an issued key yields an encrypted share of the polynomial value times the message point |
| `Scheme.SharedValue` | src/fussion.cpp:154-154 | aggregator and verifier hash the same value: `PK_v^alpha = beta^sk_v` |
| `Correctness.ReKeyInvertsHash` | src/fussion.cpp:154-159 | the re-encryption key times the verifier's hash is `alpha` modulo `q - 1` |
| `Correctness.ReEncryption` | src/fussion.cpp:167-171 | round trip: the verifier's power of a re-encrypted value is `beta^(u + e)` |
| `Correctness.VerifierHashIsRepair` | src/fussion.cpp:250-254 | the exponent of both ends is the first repaired member from the hash of `beta^sk_v` modulo `q - 1` |
| `Correctness.SentRoundTrip` | src/fussion.cpp:162-176 | for every sent entry, the verifier's power of its auxiliary value is `beta^(u + e)`, the mask its point carries: the signer's `beta^u` times the drawn `beta^e` |
| `Correctness.StrippedTerm` | src/fussion.cpp:257-270 | after weighting, all that is left of a signer's contribution is coefficient times share times message point |
| `Correctness.CombinedPoint` | src/fussion.cpp:255-271 | the combined point of any honest quorum, whatever its identities |
| `Correctness.ZeroSignatures` | src/fussion.cpp:263-276 | signature points that are neutral, or that the mask `beta^e` makes neutral, are accepted exactly when the expected point is neutral too |
| `Correctness.AcceptedExactly` | src/fussion.cpp:246-277 | the verdict on every honest quorum, for every generator: accepted for a unit generator and distinct non-zero identities; with a zero generator, a zero identity or only repeated ones, accepted exactly when the expected point is neutral; in general, exactly when the identities recover this key or the message point is neutral |
| `Correctness.HonestQuorumAccepted` | src/fussion.cpp:280-304 | every honest quorum with distinct non-zero identities is accepted, for all thresholds, keys, messages, verifiers and draws |
| `Correctness.CombinedIsSecret` | src/fussion.cpp:263-271 | every such quorum combines to the shared secret times the message point |
| `Correctness.MessageBinding` | src/fussion.cpp:274-276 | a quorum that signed one message is accepted for another exactly when the two hashes agree modulo `q` or the shared secret is zero |
| `Correctness.QuorumIndependence` | src/fussion.cpp:255-271 | any two such quorums, with different randomness and for different verifiers, combine to the same point |
| `Correctness.WeightVanishes` | src/fussion.cpp:257-262 | a weight is zero exactly for a zero auxiliary value, a zero identity or a repeated identity |
| `Correctness.SingleCorruption` | src/fussion.cpp:246-277 | replacing one point of an accepted signature by another is rejected exactly when that signer's weight is not zero |
| `Pipeline.KeyGen` | src/fussion.cpp:88-111 | the public keys of the drawn constants and one issued key per signer |
| `Pipeline.ZeroBetaShare` | src/fussion.cpp:117-127 | with `beta` zero modulo `q` every partial signature is the neutral point |
| `Pipeline.PipelineOutcome` | src/fussion.cpp:280-304 | the verdict for every outcome of the draws and every threshold; at threshold 2 the pipeline passes exactly for a unit generator and two distinct non-zero identities, or a neutral expected point |
| `Pipeline.PassesForEveryKey` | src/fussion.cpp:280-304 | for a unit generator and message point, a run of signers passes under every key the authority could have drawn exactly when their identities are distinct and non-zero |
| `Pipeline.Fussion` | src/fussion.cpp:280-304 | the pipeline returns 1 for every unit generator and distinct non-zero identities; with a zero generator, a zero identity or only repeated identities exactly when the expected point is neutral; and for up to three thresholds the condition is closed for all draws |
| `Protocol.RegisterUavKeeps` | src/brpcTA.cpp:53-76 | a signer that registers holds a key issued for its identity, or no key if it used the head's identity |
| `Protocol.RegisteredSigns` | src/brpcTA.cpp:70-72 | a signer that registers gets its key under the exponents drawn for it, and what it then signs is encrypted with their total, for every threshold and message |
| `Protocol.CollectedIsHonest` | src/brpcUAV.cpp:60-63 | whatever a registered signer answers is an honest partial signature for the authority's message and threshold |
| `Protocol.CollectKeeps` | src/brpcAgg.cpp:178-214 | collecting keeps every stored signature honest |
| `Protocol.TranKeeps` | src/brpcAgg.cpp:63-66 | every transformation delivered to a verifier is one of honest signatures for that verifier's key |
| `Protocol.TranDelivers` | src/brpcAgg.cpp:63-66 | what a verifier is sent is the transformation of all stored signatures under the drawn mask for its own public key, and it is long enough exactly when `t` signatures are stored |
| `Protocol.StepKeeps` | src/brpcAgg.cpp:160-217 | every step of every party keeps the system invariant, successful or failed |
| `Protocol.RunKeeps` | src/brpcAgg.cpp:255-260 | the invariant holds after every run |
| `Protocol.AuthorityFixed` | src/brpcTA.cpp:18-24 | no run changes the authority's keys |
| `Protocol.RunsAcceptExactly` | src/brpcVerifier.cpp:116-134 | after every run and for every generator, a delivery with enough entries gets the exact verdict on its first `t` identities: accepted for a unit generator when distinct and non-zero; for a zero generator, a zero identity or only repeated ones accepted exactly when the expected point is neutral; in general when they recover the authority's key or the message point is neutral |
| `Protocol.RunsAccept` | src/brpcVerifier.cpp:116-134 | after every run with a unit generator, every verifier accepts every delivery whose first `t` identities are distinct and non-zero |
| `Protocol.QuorumServed` | src/brpcAgg.cpp:160-217 | any signers that do not use the head's identity can be served to any verifier by some run |
| `Nodes.TrustedAuthority.InitParams` | src/brpcTA.cpp:138-149 | the key vectors grow by the draws; a fresh authority becomes a legal start of the state machine with 20 thresholds and `t = 11` |
| `Nodes.TrustedAuthority.Register` | src/brpcTA.cpp:53-76 | the answer of the state machine: for a signer the ciphertexts of its factors under the drawn exponents, for the head's identity the transformation key alone |
| `Nodes.UavServer.RegisterUav` | src/brpcUAV.cpp:115-145 | stores the answer, and nothing if the call failed |
| `Nodes.UavServer.HandleSign` | src/brpcUAV.cpp:60-63 | answers with the signature of its own key |
| `Nodes.Aggregator.GetPpAndSk` | src/brpcAgg.cpp:120-149 | stores the parameters and the transformation key, and nothing if the call failed |
| `Nodes.Aggregator.CollectParSigs` | src/brpcAgg.cpp:178-216 | asks the servers in turn and appends the signatures of those that answer before the first channel that cannot be opened, and reports that case with -1 |
| `Nodes.AnswersComplete` | src/brpcAgg.cpp:178-216 | the loop brings one signature per round exactly when every round is answered |
| `Nodes.CollectionIsRun` | src/brpcAgg.cpp:178-216 | the collection loop, with all its failures, is a run of the state machine |
| `Nodes.Aggregator.HandleTran` | src/brpcAgg.cpp:63-66 | transforms all stored signatures for the verifier's public key |
| `Nodes.VerifierClient.GetParams` | src/brpcVerifier.cpp:58-84 | moves to the registered state of the state machine, keeping what was delivered, and stays put if the call failed |
| `Nodes.VerifierClient.VerifySignature` | src/brpcVerifier.cpp:122-139 | records the delivery and gives the verdict on it; says so exactly when the delivery is too short for the threshold, where the source reads past its vectors, and when the call failed |
| `Nodes.UavMain` | src/brpcUAV.cpp:184-189 | run from any reachable state of the system, the signer's program is one step of the state machine, for either outcome of the call |
| `Nodes.AggregatorMain` | src/brpcAgg.cpp:255-260 | run from any reachable state, the aggregator's program is a run: registration of the head, then one step per round until a channel cannot be opened; an empty aggregator ends with enough signatures for the threshold exactly when every round is answered |
| `Nodes.VerifierMain` | src/brpcVerifier.cpp:144-148 | run from any reachable state, the verifier's program is a run of two steps; it reads past its vectors exactly when the aggregator holds fewer than `t` signatures, otherwise its result is the exact verdict on them for every generator, and 1 for a unit generator when the first `t` identities are distinct and non-zero |
| `Nodes.Session` | src/brpcAgg.cpp:160-217 | from a fresh system, `t` signers, the aggregator and a verifier one after the other: every precondition is met on the way, the aggregator ends with the signers' identities in order, the result is the exact verdict, and for a unit generator distinct non-zero identities end in 1 |
| `Amf.BytesRoundTrip` | libsh/brpc/amf_inl.h:153-166 | the conversions to and from network order are inverse for every number that fits the width |
| `Amf.NetworkOrder` | libsh/brpc/amf_inl.h:153-156 | byte `k` of a number of `w` bytes is its digit of weight `256^(w - 1 - k)` |
| `Amf.FromNetworkOrder` | libsh/brpc/amf_inl.h:64-77 | bytes read as a number are weighted from the first, the highest, to the last |
| `Amf.AmfInputStream.Cutn` | libsh/brpc/amf_inl.h:27-47 | for every chunking, delivers the next bytes of the flat input, as many as asked for and available, and counts them |
| `Amf.AmfInputStream.CheckEmptiness` | libsh/brpc/amf_inl.h:49-51 | loses no byte, and exactly when its answer differs from emptiness: on empty chunks with nothing behind them |
| `Amf.EmptyChunkNotReported` | libsh/brpc/amf_inl.h:49-51 | a stream of one empty chunk holds no byte and is not reported empty |
| `Amf.AmfInputStream.CutU8` | libsh/brpc/amf_inl.h:53-62 | fast and slow path alike give the next byte, or leave the caller's value when there is none |
| `Amf.AmfInputStream.CutUint` | libsh/brpc/amf_inl.h:64-107 | fast and slow path alike give the next number in network order; the bytes read are the high-order ones, missing bytes count as zero |
| `Amf.AmfOutputStream.Putn` | libsh/brpc/amf_inl.h:116-136 | for every sequence of granted and refused buffers, appends exactly the part that finds a place, counts it, turns bad exactly when something did not, and leaves exactly the later grants |
| `Amf.AmfOutputStream.PutU8` | libsh/brpc/amf_inl.h:138-151 | the same for one byte |
| `Amf.AmfOutputStream.PutUint` | libsh/brpc/amf_inl.h:153-166 | the same for a number, highest byte first |
| `Amf.AmfOutputStream.Done` | libsh/brpc/amf_inl.h:109-114 | a good stream is left with exactly the written bytes, and the give-back never exceeds the last buffer |
| `Amf.WriteAll` | libsh/brpc/amf_inl.h:109-166 | any sequence of writes is the same sequence on the writer's state as a value, grants and refusals included |
| `Amf.PutAllGood` | libsh/brpc/amf_inl.h:116-136 | writes are all good exactly when there is room for all of them, and then the output grows by their concatenation |
| `Amf.PutAllCutOff` | libsh/brpc/amf_inl.h:116-136 | if buffers end only for good, what arrives is the concatenation up to the room there was |
| `Amf.PutAllKept` | libsh/brpc/amf_inl.h:116-136 | whatever is granted and refused, what arrives is a prefix of each write, in order |
| `Amf.UniqueDecoding` | libsh/brpc/amf_inl.h:53-107 | items are determined by their kinds and the bytes they are written as |
| `Amf.WriteSession` | libsh/brpc/amf_inl.h:109-166 | a session is good exactly when there is room for everything, and then the stream holds exactly the encodings |
| `Amf.ReadSession` | libsh/brpc/amf_inl.h:27-107 | given the kinds and the chunks alone, reads valid items of those kinds whose encodings are the input |
| `Amf.ReadAll` | libsh/brpc/amf_inl.h:27-107 | reading by kinds alone returns valid items of those kinds whose encodings are the next bytes, and counts them, for every chunking |
| `Amf.RoundTrip` | libsh/brpc/amf_inl.h:27-166 | for every granting and refusing of output buffers and every independent input chunking, writing succeeds exactly when there is room, and a reader that is told only the kinds then gets the same items |
| `Coroutine.LocalStep` | libsh/brpc/coroutine_inl.h:57-77 | no step uses a deleted promise, deletes twice, reads an unset value or resumes a coroutine that does not wait |
| `Coroutine.StepKeeps` | libsh/brpc/coroutine_inl.h:57-77 | every atomic step of every thread keeps the handshake invariant over all promises |
| `Coroutine.HandshakeSafe` | libsh/brpc/coroutine_inl.h:57-77 | in every interleaving nothing is resumed or deleted twice, nor before both events, and no step is unsafe |
| `Coroutine.AwaiterReadsValue` | libsh/brpc/coroutine_inl.h:201-207 | in every run a promise is completed at most once and awaited by at most one coroutine, the one it records, and what its awaiter has read is the value of that completion |
| `Coroutine.HandshakeCompletes` | libsh/brpc/coroutine_inl.h:193-219 | once both events have started some thread can go on exactly until the promise is deleted, and then its awaiter has read the value it was completed with and a caller has been resumed exactly once |
| `Coroutine.HandshakeBounded` | libsh/brpc/coroutine_inl.h:57-77 | a handshake takes at most seven steps of its threads in any run |

## Left out

- Cryptographic hardness, secrecy and the quality of the random numbers: not functional claims.
- The inside of curve arithmetic, pairing, hashing and GMP: represented by residues modulo `q`, an arbitrary hash function, and defined powers and inverses.
- A proof that the BLS12-381 order and the twelve factors are prime: stated as a hypothesis.
- Negative identities: the signers draw theirs from `[1, q]`; the text-to-number conversions that could produce others are not modelled.
- The text form of numbers and points (`src/Tools/brpcTools.cpp`): values pass between the programs directly, and the head is recognised by equality of identities.
- A signer that registers under the head's identity reads the head's key as its own ciphertext list; the model keeps that list but it has no first half, so such a signer never signs.
- Channel set-up, flags, logging, JSON callbacks and server start and stop: only success or failure of a call is kept.
- Wrap-around of the byte counters of the AMF streams and requests of 2^63 bytes and more: the counters are unbounded here.
- `Amf.AmfInputStream.CutUint` and `Amf.AmfOutputStream.PutUint` each stand for three functions of the source that differ only in width.
- AMF values (objects, strings, arrays): `libsh/brpc/amf.h` declares them, but their code is not part of this model.
- Coroutine promises as objects: the handshake is a state machine on values whose steps are the atomic actions of the threads, with sequentially consistent atomics.
- The `Coroutine` object's `butex` wait and wake, the timer, and non-leaf coroutines: they rest on primitives whose code is not part of this model; the joining thread is a step that becomes possible once the callback has set the value.
- `else/client.cpp`, `else/server.cpp`, the generated protobuf code and the remaining vendored headers.
