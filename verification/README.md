# Verification of the Veiled payment identity protocol

This Dafny project models the anonymous payment identities of Veiled and proves what its
protocol is for. Beneficiaries commit to secrets and join an anonymity set kept by a
registry. A beneficiary then registers a payment identity with a merchant by a
one-out-of-many proof that one commitment of the set is its own, and it is paid by proving
knowledge of the secret behind its pseudonym.

The main results hold for all inputs, all runs, every set size N = 2^M with 2 <= M <= 8 and
every number L of merchants:

- **Completeness.** An honest proof is produced and accepted, for every position, service,
  secrets and randomness, through encoding, decoding and recomputing the challenge.
- **Special soundness.** M + 1 accepting transcripts with one first message and distinct
  challenges open one member of the set with exactly the revealed scalar at the service, or
  they exhibit a relation between g and the bit generators. Run on an honest prover the
  extractor returns exactly the prover's index and secrets.
- **Index hiding.** Two members with the same scalar at a service send the very same proof
  for matching randomness, and the matching is a bijection.
- **Binding.** One proof does not serve two statements or two names: accepted for both it shows
  two different hash inputs with one challenge, or a commitment B equal to the identity. The
  challenge inputs of registrations, nullifier proofs and payment requests determine all they
  speak about and are never shared between kinds, and a merchant never accepts one registration
  input twice.
- **Derivations.** Equal generators, and equal nullifiers or pseudonyms under different secrets
  or names, exhibit two inputs of hash-to-curve with one point, or of HKDF with one scalar;
  exactly which names share a key is stated below.
- **Sybil bound.** Over a whole run with one CRS and proofs that can be extracted as above,
  at most as many registrations are backed by a decodable member as there are decodable
  commitments in the sets ever cached, or a relation among the generators is exhibited.
- **Exact conditions.** Soundness, the Sybil bound and the acceptance of honest members each
  hold over a set if and only if every member of it decodes.
- **Registry safety** in every interleaving of the handlers at the two locks: no deadlock, no
  write without the lock, stable positions and ids, frozen and growing sealed sets, and exact
  accounts of the names and of the payments, resets included: nobody is registered unpaid.
- **End to end.** In a reset-free run of a registry with capacity at most N, a beneficiary whose
  commitment was made under the sealed CRS (printable, so that its bytes parse back:
  `EndToEnd.SealedPrintable` says exactly when) and that got a position from the registry finds
  that position in the set it is served. At any merchant that caches the served set, while
  nullifier and pseudonym are fresh, its registration is accepted if and only if all of the set
  decodes. From then on its payment requests verify and look up its own nullifier and name. A
  CRS it built from the merchants the registry answered with, when these are all that are
  sealed, is such a CRS.
- **Codecs and matching.** Proof and CRS codecs are inverse pairs with exact acceptance,
  equal Merkle roots mean equal sets or a displayed hash collision, the locally built CRS does
  not depend on order, and the process pool matches answers to requests.

## How to read it

- A module constant without a value (`Field.Q`, `Group.D`, `Group.GROUP`, `Primitives.M`,
  `SHA256`, `HKDF`, `HASH_TO_CURVE`, `CrsCodec.IS_UTF8`, `ProcessPools.PARSE`) stands for any
  value of its type, so every theorem is about all of them. No property of the hash functions
  is used. HKDF is section 2 of RFC 5869 with a 32-byte output, and depends on its salt as HMAC
  depends on its key: through the key block of section 2 of RFC 2104. Hash-to-curve is a
  function of the tag string, since all callers share one domain separation tag.
- Scalars are the integers modulo a prime Q of at most 2^256; inverses, Euclid's lemma and the
  facts about polynomials are proved in `Field` and `Polynomials`. Points are vectors of D
  scalars for any D, with an encoding to 33 bytes that decodes back. D = 1 is the curve group
  seen through discrete logarithms. Soundness needs no independent generators: where the
  argument on paper says "impossible", the lemma returns the relation. (`IndependentSoundness`
  is the textbook form, with g and the bit generators independent as far as the combinations
  go that a prover can find: at the order of the curve D = 1, and some relation always exists.)
  Index hiding asks that g generates
  the group.
- Randomness is an argument (`Coins`), and so is whatever wallet, database and network do
  (`Outside`, `Event`). A method is proved equal to a function of its inputs and its old state,
  and the theorems are about that function. The registry service is a state machine whose
  steps are the sections between lock operations.
- The verifier takes an undecodable set member for the identity and the prover panics on it
  (src/core/payment_identity.rs:214, 440-443). The prover's panic is the error
  `UndecodableMember`.

## What the code does that its documentation does not say

- The verifier's comments speak of one commitment per bit and ten equations; the code has
  four aggregate commitments and two equations, and these are modelled.
- The CRS format comment leaves out h_name, which is printed after g.
- A name is said to bind a nullifier to its merchant (src/core/nullifier.rs:26-27). As an HKDF
  salt it is an HMAC key, so names that differ only in zero bytes at the end share every
  nullifier and every pseudonym, and names of more than 64 bytes are bound up to their hash.
  Two merchants see one nullifier of a member if and only if their names share a key in this
  sense, or two HKDF inputs collide (`KeyDerivation.MerchantsUnlinked`); the registry accepts
  such a pair (`ServiceRuns.ZeroNameRegisters`). Names of at most 64 bytes without a zero at
  the end share no key (`KeyDerivation.PlainNamesApart`), which can be checked on registration.
- The name check is said to be secure because a fake name scalar makes the proof fail
  (src/core/payment_identity.rs:90-92). The name cannot be replaced in a finished proof
  (`ProofBinding.ProofBoundToClaim`), but the proof does not tie it to the name in the
  commitment: for every opened member and every name there is an accepted proof that reveals
  it (`ProofTheorems.RevealedNameIsFree`).
- If saving a merchant fails, its name stays in the pool while the caller gets an error: it
  can neither be used nor taken again until a reset. The name pool therefore equals registered
  plus in-flight names, without resets, exactly in the runs where no save failed (`MerchantNames.PoolIsNames`,
  `MerchantNames.StrandedForever`).
- Nothing on the way from `register_beneficiary` to a merchant's cache decodes a commitment, so
  33 bytes that are not a point are sealed like any others (`ServiceRuns.AnyBytesSealed`). The
  verifier takes such a member for the identity without shifting it, and zero secrets open the
  identity: a request over that set needs no secret (`DecodableRuns.SecretlessAccepted`), and
  one set admits as many registrations as there are scalars (`DecodableRuns.UndecodableIsUnbounded`).
  Honest members, whose prover panics, can then register nowhere. That every member decodes is
  therefore the exact condition of soundness, of the Sybil bound and of honest acceptance
  (`DecodableSets.SoundExactlyWhenDecodable`, `DecodableRuns.BoundedExactlyWhenDecodable`,
  `EndToEnd.HonestMemberAccepted`); it can be checked before a set is cached, or a commitment
  before it is added.
- A reset clears the store and the registry in two sections. A merchant that registers between
  them keeps its name in the pool and its id, while the registry forgets it
  (`ServiceRuns.ResetOrphansName`). A merchant that has taken its name before a reset and enters
  the registry after it leaves a registered name that is free in the pool, and the same name can
  be registered again under a second id (`ServiceRuns.ResetDoublesName`). In every run, resets
  included, the names are in order if and only if the resets wiped from the pool just the names
  they cleared from the registry, each as often (`MerchantNames.NamesExactly`).
- The process pool matches answers to requests by order alone. A timer that hits the pending
  call puts it one answer behind, and a line dropped while nothing is pending brings it back;
  the difference is the skew. In every run the next line answers the call skew places before the
  pending one, and calls are settled by their own answers if and only if no line settles a call
  at a skew (`ProcessPools.NextLine`, `ProcessPools.OwnAnswersExactly`). Before its last attempt
  the wrapper kills the child after a timeout, which ends the run; so it takes the timeout of a
  last attempt to leave a later call with the answer to an earlier one
  (`ProcessPools.PendingTimeoutMisleads`).
- `cache_set` replaces a set already cached under the same id. The verifier's table keeps all
  its properties, and the Sybil bound counts every commitment ever cached.

## Model

| member | source | states |
|---|---|---|
| Primitives.FiatShamirChallenge | src/core/utils.rs:123-157 | the hasher fed in loops sees exactly the transcript bytes of statement, shifted set and first message |
| Primitives.TranscriptBinds | src/core/utils.rs:137-154 | equal challenge inputs over sets of one size come from equal statements, sets and first messages |
| Primitives.SchnorrBinds | src/core/utils.rs:164-177 | under one tag the challenge input of a Schnorr proof determines base point, key and nonce |
| Primitives.InputsApart | src/core/utils.rs:118-177 | the challenge inputs of registrations, nullifier proofs and payment requests are never equal |
| Primitives.ScalarRoundTrip | src/core/utils.rs:100-114 | a scalar survives its 32-byte encoding |
| Primitives.TagBinds | src/core/crs.rs:78-101 | distinct labels, decimal numbers included, are hashed to the curve from distinct strings |
| Crs.EqualGeneratorsCollide | src/core/crs.rs:77-112 | for every merchant list, two equal entries among g, h_1 … h_L, h_name and the H_k come with two different tags that hash to that point |
| Crs.CommitMasterIdentity | src/core/crs.rs:146-169 | succeeds exactly when there is one nullifier per generator, and the accumulated point is the encoded combination k·g + Σ s_l·h_l + name·h_name |
| Expansion.MultiplyInPlace | src/core/payment_identity.rs:304-307 | the downward loop multiplies the polynomial held in the array by one linear factor |
| Expansion.Expand | src/core/payment_identity.rs:293-308 | the array ends as the coefficients of the product of the M factors for member j |
| Expansion.ExpansionIsProduct | src/core/payment_identity.rs:510-521 | those coefficients evaluate, at any challenge and the matching answers, to the verifier's product p_j |
| Expansion.LeadingCoefficient | src/core/payment_identity.rs:296-308 | the top coefficient for member j is 1 when its bits are the prover's and 0 otherwise |
| Expansion.LeadingSelects | src/core/payment_identity.rs:292-313 | over the whole set the top coefficients select the prover's index |
| RegistrationProver.CommitVector | src/core/payment_identity.rs:245-269 | the accumulating loops of A, B, C and D yield r·g + Σ c_k·H_k |
| RegistrationProver.SkipService | src/core/payment_identity.rs:272-280 | the list with the service's own entry left out, between first and last |
| RegistrationProver.MaskedPoints | src/core/payment_identity.rs:285-313 | the nested loops leave in every E_k the masks on the active generators plus the k-th coefficients over the set |
| RegistrationProver.PolynomialAnswers | src/core/payment_identity.rs:342-367 | every response is w·x^M - Σ rho_k·x^k |
| RegistrationProver.AnswerAll | src/core/payment_identity.rs:330-367 | all responses together are those of the abstract prover |
| RegistrationProver.ProvePaymentIdentityRegistration | src/core/payment_identity.rs:176-390 | the whole prover: every error in the code's order, otherwise the specified proof |
| RegistrationVerifier.SubtractAll | src/core/payment_identity.rs:483-498 | the loops of the two bit checks subtract Σ c_k·H_k from their start |
| RegistrationVerifier.SelectorProduct | src/core/payment_identity.rs:512-520 | the loop computes p_j of the answers |
| RegistrationVerifier.MemberSum | src/core/payment_identity.rs:510-522 | the left side of the membership check |
| RegistrationVerifier.ResponseSum | src/core/payment_identity.rs:525-543 | the loop with its running response index combines the responses with the active generators in order |
| RegistrationVerifier.AddPowers | src/core/payment_identity.rs:545-550 | the running power of x weights every E_k |
| RegistrationVerifier.VerifyPaymentIdentityRegistrationProof | src/core/payment_identity.rs:406-573 | the code's checks decide exactly the predicate Verify |
| Completeness.HonestAccepts | src/core/payment_identity.rs:480-554 | honest answers pass all three group equations at every challenge, for every opened member |
| ProofTheorems.HonestProofVerifies | src/core/payment_identity.rs:176-573 | completeness of the whole proof, with decoding and the recomputed challenge |
| ProofTheorems.RevealedNameIsFree | src/core/payment_identity.rs:85-100 | for every opened member and every name scalar there is an accepted proof that reveals it, whatever name is in the commitment |
| Soundness.ExtractedBitsBinary | src/core/payment_identity.rs:491-501 | from the degree-two check at three challenges every extracted bit is 0 or 1 |
| Soundness.SpecialSoundness | src/core/payment_identity.rs:480-554 | M + 1 accepting transcripts open the extracted member on the active generators alone, or break the binding of g and the bit generators |
| ProofTheorems.ForkOpensMember | src/core/payment_identity.rs:430-554 | the same for the commitment itself: exactly the revealed s_l on h_l, nothing on the bit generators |
| ProofTheorems.IndependentSoundness | src/core/payment_identity.rs:503-554 | if g and the bit generators are independent with respect to any family of combinations that includes the extractor's, the opening is there |
| Extraction.ExtractorInvertsProver | src/core/payment_identity.rs:223-367 | an honest prover rewound to M + 1 challenges is such a fork, exhibits no relation, and the extractor returns exactly its index and its secrets |
| ProofBinding.HashInputDetermines | src/core/utils.rs:137-154 | the challenge input of an accepted proof determines base point, service, set id, pseudonym, nullifier, name scalar, shifted set and first message |
| ProofBinding.ProofBoundToClaim | src/core/payment_identity.rs:463-476 | a proof accepted for two claims that differ in service, set id, pseudonym, nullifier or shifted set, or accepted again with another name scalar, shows two different hash inputs of one challenge, or its B is the identity |
| ProofBinding.AcceptedNonce | src/core/payment_identity.rs:563-572 | the nonce of an accepted Schnorr proof is (s - e·s_l)·g for the very scalar the proof reveals |
| ProofBinding.AcceptedSchnorr | src/core/payment_identity.rs:556-568 | an accepted nullifier decodes to g times the revealed scalar, and the nonce decodes |
| ProofBinding.AcceptedExactly | src/core/verifier.rs:155-206 | a request is accepted if and only if its set is cached, its proof passes for it, SHA256 of the friendly name is the proof's name scalar, and nullifier and pseudonym are new |
| ProofBinding.OneNamePerInput | src/core/payment_identity.rs:85-100 | requests accepted anywhere with one challenge input are for one service, set, pseudonym and nullifier, and their friendly names have one hash |
| ProofBinding.InputsNeverRepeat | src/core/verifier.rs:192-206 | over a whole run a merchant never accepts one challenge input twice |
| IndexHiding.SameTranscript | src/core/payment_identity.rs:223-367 | for matching coins the transcripts at two indices coincide, and matching back returns the coins |
| ProofTheorems.ProofHidesIndex | src/core/payment_identity.rs:176-389 | the same for whole encoded proofs, challenge by hash included |
| ProofCodec.BaseSizeValue | src/core/payment_identity.rs:581-589 | the block layout adds up to the constant 4·33 + M·33 + M·32 + 2·32 + 33 + 3·32 |
| ProofCodec.SerializedSize | src/core/payment_identity.rs:581-597 | a proof prints to the base size plus 32 bytes per response |
| ProofCodec.DeserializeSerialize | src/core/payment_identity.rs:592-667 | parsing a printed proof returns it |
| ProofCodec.SerializeDeserialize | src/core/payment_identity.rs:622-667 | accepted exactly when the length is the base size plus a multiple of 32, and then re-printing gives the same bytes |
| ProofCodec.SerializeProof | src/core/payment_identity.rs:592-617 | the appending loops print that form |
| ProofCodec.DeserializeProof | src/core/payment_identity.rs:622-667 | the slicing loops parse that form, with both errors |
| CrsCodec.FromBytesToBytes | src/core/crs.rs:185-352 | a printed CRS, followed by anything, parses to the CRS with ids 1 … L |
| CrsCodec.StrictPrefixRejected | src/core/crs.rs:221-352 | every strict prefix of a printed CRS is refused |
| CrsCodec.ParsedReprints | src/core/crs.rs:221-352 | whatever is accepted is printable and re-parses to itself |
| CrsCodec.PrintCrs | src/core/crs.rs:185-218 | the loops print that form |
| CrsCodec.ReadGenerators | src/core/crs.rs:273-290 | the cursor loop over generators parses as specified |
| CrsCodec.ReadMerchants | src/core/crs.rs:292-342 | the cursor loop over merchants parses as specified, numbering from 1 |
| CrsCodec.ReadCrs | src/core/crs.rs:221-352 | the whole parser with every error in the code's order |
| Credential.CredentialOpens | src/core/credential.rs:82-125 | it opens its commitment with its derived nullifiers, and its public nullifier belongs to the scalar revealed at the service |
| Credential.CreatedUnder | src/core/credential.rs:57-71 | it keeps the given secrets and name, and commits to them under the CRS it is created with |
| KeyDerivation.SameKeyExactly | src/core/nullifier.rs:28-38 | two names give one HMAC key block if and only if, hashed when longer than 64 bytes, they differ at most in zeros at the end |
| KeyDerivation.PlainNamesApart | src/core/nullifier.rs:26-27 | names of at most 64 bytes without a zero at the end share a key if and only if they are equal |
| KeyDerivation.NullifiersAgree | src/core/nullifier.rs:28-38 | nullifiers agree if and only if master secrets and keys agree, or two different HKDF inputs with one scalar are exhibited |
| KeyDerivation.PseudonymsAgree | src/core/request.rs:60-89 | the same for pseudonyms, child randomness and names |
| KeyDerivation.NullifierIsNoPseudonym | src/core/request.rs:60-69 | a nullifier equals a pseudonym only by such a collision, whatever secrets and names |
| KeyDerivation.MerchantsUnlinked | src/core/credential.rs:76-101 | two merchants see one nullifier, or one pseudonym, of a member if and only if their names share a key or HKDF inputs collide |
| KeyDerivation.ZeroSharesKeys | src/core/nullifier.rs:28-38 | a name of fewer than 64 bytes and the name with a zero byte behind it derive the same for every secret |
| Credential.HonestRequestVerifies | src/core/request.rs:151-194 | every honest payment request verifies, for every nonce |
| Credential.RequestSpecialSoundness | src/core/request.rs:187-194 | two accepting answers to one nonce point give the secret behind the pseudonym, and the only one |
| Credential.VerifyRequestExactly | src/core/request.rs:174-194 | a request is accepted if and only if pseudonym and nonce decode and the nonce is s·g - e·φ for the challenge e hashed from g, pseudonym and that very nonce |
| Credential.OneRequestPerInput | src/core/request.rs:133-194 | accepted requests with one challenge input have one base point, pseudonym and nonce, and one answer unless g is the identity |
| VerifierTable.VerifierState.CacheSet | src/core/verifier.rs:94-96 | inserts or replaces one cached set and nothing else |
| VerifierTable.VerifierState.CheckFreshness | src/core/verifier.rs:128-140 | fresh exactly when both are new; the nullifier is reported first |
| VerifierTable.VerifierState.LookupByPseudonym | src/core/verifier.rs:123-125 | the registration filed under a pseudonym |
| VerifierTable.VerifierState.VerifyAndRegister | src/core/verifier.rs:155-206 | accepts exactly what nothing refuses, with the errors in order; a refusal changes nothing |
| VerifierTable.RunCoherent | src/core/verifier.rs:155-206 | in every run the pseudonym set is the key set of the table, the nullifier set its image, the map between them one to one, and all three sizes equal |
| VerifierTable.RunGrows | src/core/verifier.rs:155-206 | entries are never altered or removed |
| VerifierTable.AcceptedOnceAndForever | src/core/verifier.rs:123-206 | an accepted registration stays retrievable, and neither its pseudonym nor its nullifier is ever accepted again |
| SybilBound.TwoOpeningsRelation | src/core/crs.rs:146-169 | two openings of one commitment with different scalars at a service give a relation among the identity generators |
| SybilBound.NullifiersDiffer | src/core/payment_identity.rs:556-561 | accepted proofs with different nullifier bytes reveal different scalars |
| SybilBound.AcceptancesMatchTable | src/core/verifier.rs:192-205 | the table has one entry per acceptance, with pairwise distinct nullifiers |
| SybilBound.RegistrationsBounded | src/core/verifier.rs:155-206 | over a whole run with one CRS and a fork for every accepted proof, acceptances backed by a decodable member number at most the decodable commitments ever cached, or a relation is exhibited; all registrations do when every cached commitment decodes |
| DecodableSets.SecretlessVerifies | src/core/payment_identity.rs:437-445 | over a set with an undecodable member the answers to zero secrets pass every check, whatever scalar, name and pseudonym are claimed |
| DecodableSets.SecretlessFork | src/core/payment_identity.rs:437-554 | they form a fork that exhibits no relation and leads to the undecodable member |
| DecodableSets.SoundExactlyWhenDecodable | src/core/payment_identity.rs:437-554 | every fork leads to a member that is a point opened by the revealed scalar, or exhibits a relation, if and only if every member decodes (given more than M scalars) |
| DecodableRuns.SecretlessAccepted | src/core/verifier.rs:155-206 | in every table with such a set cached, a request with fresh nullifier and pseudonym is accepted without a secret |
| DecodableRuns.AllAccepted | src/core/verifier.rs:155-206 | requests valid over a cached set with new nullifiers and pseudonyms are all accepted |
| DecodableRuns.UndecodableIsUnbounded | src/core/verifier.rs:155-206 | over such a set, for every n up to the group order, a run with n registrations, all extractable and relating nothing |
| DecodableRuns.BoundedExactlyWhenDecodable | src/core/verifier.rs:155-206 | with g and h_l not the identity and more scalars than members, the Sybil bound holds over a set of N members if and only if every member decodes |
| Merkle.PadWithLast | src/core/registry.rs:159-163 | the loop repeats the last element up to the given length |
| Merkle.HashPairs | src/core/registry.rs:168-174 | one level of the tree becomes the next |
| Merkle.LevelUpKeepsRoot | src/core/registry.rs:166-177 | halving the level leaves the recursively defined root as it is |
| Merkle.ComputeRoot | src/core/registry.rs:152-178 | the loops compute the root of the padded tree, whatever the number of members |
| Merkle.RootBinds | src/core/registry.rs:152-178 | equal roots mean equal padded lists, and equal lists when duplicate-free, or a pair of different inputs with one hash is computed, across heights too |
| RegistryData.Registry.AddMerchant | src/core/registry.rs:102-107 | appends with the next position as id and returns it |
| RegistryData.EqualCredentialGenerators | src/core/merchant.rs:59-66 | equal credential generators of differently named merchants come with two different tags that hash to one point |
| RegistryData.Registry.AddBeneficiary | src/core/registry.rs:121-125 | appends commitment and payment together and returns the position |
| RegistryData.Registry.SetupCrs | src/core/registry.rs:112-115 | rebuilds the CRS from all merchants |
| RegistryData.Registry.CreateAnonymitySet | src/core/registry.rs:144-178 | refuses an empty set; otherwise records the Merkle root even if the tweak then fails |
| RegistryData.RegistryStore.AddMerchant | src/registry/store.rs:53-85 | the checks in order; a failed save leaves the merchant in the pool |
| RegistryData.RegistryStore.CreateTx | src/registry/store.rs:110-150 | files a clone of the anchored registry under the broadcast txid, also when marking it in the database fails |
| RegistryData.PadForProof | src/registry/service.rs:284-293 | pads a non-empty short set to N with its last commitment |
| Service.RunLocks | src/registry/service.rs:103-115 | in every run each lock word names exactly the thread inside a section that holds it |
| Service.DeadlockFree | src/registry/service.rs:196-205 | in every reachable state every unfinished handler can step, or the chain of holders of the locks waited for leads within two links to one that can |
| ServiceSafety.PendingAlwaysOk | src/registry/service.rs:165-172 | in every interleaving, resets included, pending commitments are distinct, within capacity and aligned with payments, ids are positions and answers given still hold |
| ServiceSafety.SetupAlwaysHeld | src/registry/service.rs:196-205 | between building the CRS and sealing nobody changes the merchants |
| ServiceSafety.SealedAlwaysInOrder | src/registry/store.rs:129-141 | in reset-free runs with fresh txids the sealed sets are sound snapshots, each extended by the next and by the pending registry |
| ServiceSafety.SealedFrozen | src/registry/store.rs:110-150 | an entry of the active sets never changes after insertion |
| ServiceSafety.SealedSetsExtend | src/registry/service.rs:185-214 | merchants, members and generators of an earlier sealed set are prefixes of those of a later one |
| Payments.Conservation | src/registry/service.rs:157-176 | in every run, resets included, deposits recorded in the registry, carried by handlers, refused after payment and forgotten by resets are, as multisets, those whose payment was found |
| Payments.RecordedWerePaid | src/registry/service.rs:157-176 | so each recorded or carried deposit occurs at most as often as its payment was found |
| Payments.MemberWasPaid | src/registry/service.rs:157-172 | every commitment ever in the registry has a payment that was found for it and its own output |
| Payments.MerchantWasPaid | src/registry/store.rs:63-85 | so has every registered merchant |
| Payments.UnpaidEnds | src/registry/service.rs:157-163 | a first section without payment ends its handler with the refusal and leaves all shared data as it was |
| ServicePromises.PositionStands | src/registry/service.rs:165-182 | a position returned to a beneficiary names its commitment, and no other position does, until the registry is cleared |
| ServicePromises.IdStands | src/registry/service.rs:111-121 | an id given to a merchant stands for exactly the merchant its client holds, until then |
| ServicePromises.SettledIdAnswered | src/registry/service.rs:111-121 | the id a merchant handler settled on is the one it answers, whatever interleaves |
| ServicePromises.SealingAnswers | src/registry/service.rs:201-213 | an answered set id is one the pending registry was just filed under; a failure files nothing, except when the database refuses a set already broadcast |
| ServicePromises.SealedStands | src/registry/store.rs:110-150 | an answered set id names, in every later state, the members and merchants pending at sealing, their Merkle root and the CRS of those merchants |
| ServicePromises.WritesUnderLock | src/registry/service.rs:103-176 | in every run only the handler named in a lock's word changes what the lock protects |
| ServicePromises.ReadsExactlySealed | src/registry/service.rs:234-301 | in reset-free runs a reader learns of a set if and only if it has been sealed, and changes nothing |
| ServicePromises.NamesAlwaysFit | src/core/types.rs:44-55 | in every run registered names are within 255 bytes |
| MerchantNames.Ledger | src/registry/service.rs:103-113 | in every run, resets included, the names due (registered, in flight, save failed) with those cleared from the registry are, as multisets, the names in the pool with those wiped from it |
| MerchantNames.NamesExactly | src/registry/service.rs:334-346 | in every run the account of the names is right if and only if the resets wiped from the pool just what they cleared from the registry |
| MerchantNames.NamesAlwaysOk | src/registry/store.rs:63-85 | in reset-free runs names are distinct and the pool is split into registered names, names in flight and names whose save failed |
| MerchantNames.PoolIsNames | src/registry/service.rs:102-113 | the pool equals registered plus in-flight names if and only if no save failed |
| MerchantNames.StrandedForever | src/registry/store.rs:79-82 | a name whose save failed stays taken and unregistered however the run goes on |
| ServiceRuns.SaveCanFail | src/registry/store.rs:79-82 | a run whose only merchant is paid for and not saved: told an error, its name in the pool, nothing registered |
| ServiceRuns.ResetOrphansName | src/registry/service.rs:334-346 | a run in which a merchant registers between the two sections of a reset: told its id, its name taken, and not in the registry |
| ServiceRuns.ResetDoublesName | src/registry/service.rs:103-113 | a run with one reset and no failed save that ends with every handler finished and one name registered under ids 1 and 2 |
| ServiceRuns.AnyBytesSealed | src/registry/service.rs:138-172 | for any 33 bytes a run that seals them as the one commitment of a set; the served set decodes if and only if they do |
| ServiceRuns.ResetRestarts | src/registry/service.rs:334-352 | from every idle state an uninterrupted reset leaves the service as it began |
| ServiceRuns.ZeroNameRegisters | src/registry/store.rs:63-85 | a run that registers a name and the name with a zero byte behind it, at which every member has one nullifier and one pseudonym |
| Membership.Beneficiary.constructor | src/core/beneficiary.rs:43-67 | starts unseated with a credential made under the given CRS |
| Membership.Beneficiary.Register | src/core/beneficiary.rs:73-86 | seats the member at the first position of its commitment, or fails exactly when it is absent and changes nothing |
| Membership.Beneficiary.CreatePaymentRegistration | src/core/beneficiary.rs:104-150 | every error leaves the member as it was; success stores and returns the specified registration |
| EndToEnd.PlaceInPaddedSet | src/registry/service.rs:286-293 | padding does not move the first position of a commitment |
| EndToEnd.SealedWithMember | src/registry/service.rs:165-172 | a set sealed with a member holds it where it was told, and the served CRS bytes parse to the sealed CRS |
| EndToEnd.SealedPrintable | src/core/crs.rs:185-218 | the CRS of a sealed set is printable if and only if its counts fit four bytes and its names and origins are text of a printable length |
| EndToEnd.ServedAlike | src/registry/service.rs:234-301 | once sealed, a set is served with the same padded members and CRS bytes by every handler, however the run goes on |
| EndToEnd.LocalCredentialFits | src/client.rs:36-41 | a credential created under a CRS built from the answered merchants, when they are all that are sealed, was made under the sealed CRS |
| EndToEnd.SeatedMemberRegisters | src/core/beneficiary.rs:104-150 | a seated member's registration succeeds if and only if its set decodes, and then the verifier's answer depends on freshness alone |
| EndToEnd.HonestMemberAccepted | src/core/verifier.rs:155-206 | in any reset-free run a beneficiary answered with a position finds it and is accepted by any merchant it is ready to register at, if and only if all of the set decodes |
| EndToEnd.PaymentFollowsRegistration | src/core/request.rs:151-194 | in every later state its payment requests verify and its pseudonym looks up its nullifier and name |
| Client.SortCorrect | src/client.rs:37-38 | sorting by id permutes, sorts and keeps the order of equal ids |
| Client.BuildCrsIgnoresOrder | src/client.rs:36-41 | from any ordering of the registered merchants the local CRS is the registry's |
| Client.CreatedUnderLocalCrs | src/client.rs:36-41 | a credential created under the local CRS was made under the registry's |
| ProcessPools.ProcessPool.DrainQueue | ui/lib/process-pool.ts:82-87 | the first queued call becomes pending when nothing is |
| ProcessPools.ProcessPool.CallOnce | ui/lib/process-pool.ts:89-114 | the request is written at once; the call becomes pending or joins the queue |
| ProcessPools.ProcessPool.OnLine | ui/lib/process-pool.ts:39-55 | a line settles the pending call by its contents and drains the queue |
| ProcessPools.ProcessPool.OnTimeout | ui/lib/process-pool.ts:94-100 | a timer rejects its call, and frees the place if it was pending |
| ProcessPools.RunInStep | ui/lib/process-pool.ts:39-114 | in every run, all timers included, outstanding calls are the latest in order, nothing waits when nothing is pending, and no line is read before its call leaves |
| ProcessPools.NextLine | ui/lib/process-pool.ts:39-55 | in every run the next line is the answer to the call skew places before the pending one, the skew being timers that hit the pending call less lines dropped since |
| ProcessPools.RunSettledFrom | ui/lib/process-pool.ts:39-55 | in every run a call is settled by the answer to its source or by its timer |
| ProcessPools.SettlementMeans | ui/lib/process-pool.ts:39-55 | in every run a call is resolved with its source line's data exactly when the line carries data, rejected with its message exactly when it reports an error, handed the line exactly when it does not parse, and timed out exactly when no line settled it |
| ProcessPools.OwnAnswersExactly | ui/lib/process-pool.ts:39-114 | for every run: each call settled by a line is settled by its own answer if and only if no line settles a call at a nonzero skew |
| ProcessPools.OwnAnswers | ui/lib/process-pool.ts:39-114 | without timeouts each call is settled by its own answer, and unsettled calls are the pending one and the queue |
| ProcessPools.PendingTimeoutMisleads | ui/lib/process-pool.ts:94-135 | from every state whose pending call has a ticking timer, that timer firing on a last attempt can leave a later call with the answer to an earlier request |

## Left out

- Wallet and chain: funding, signing, broadcasting, fees and payment verification are outcomes passed in; nothing is claimed about amounts, and the code does not track reuse of an outpoint, so the account of payments counts how often one was found.
- Taproot: the output script, the tweak and P2TR address derivation are library calls; only whether the tweak succeeds is modelled.
- SQLite, gRPC, JSON, hex, logging and length checks on incoming byte strings: plumbing; a failed save is an outcome passed in.
- src/core/tx.rs: its transactions conserve value by construction and its key aggregation is a placeholder.
- Handlers get_merchants, get_registry_address and get_fees only read, and would add easy members.
- subscribe_set_finalization: the sleep between polls and the channel are not modelled; sets are inserted already finalized, so its wait never blocks.
- Merchant::receive_payment_registration: it checks only the pseudonym for freshness, so the Sybil bound is stated for VerifierState alone; attach_set only assigns two fields.
- Client.SortCorrect: the library's sort is modelled by its result, a stable sort by id, not by how it is computed.
- The h_generator commitment helper, create_with_name, derive_child_randomness and the list form of public nullifiers: unused by the modelled flows or immediate from the members above.
- Parsing a CRS reserves memory for the declared count before reading; allocation limits are not modelled. Integers that the code casts are truncated as it does when printing; positions and ids are unbounded.
- The registry's operator key and its required amount: chosen at random and fixed, and read by nothing modelled. A merchant's map of registered identities is empty in every CRS and is not part of it.
- ProcessPools.OwnAnswersExactly: the run follows one child until it exits or is killed; what an exit rejects, the respawned child and the repeated call are not modelled.
- Hardness: no probability and no running time; soundness and the Sybil bound return the relation or the collision instead.
