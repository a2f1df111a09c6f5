# Otvoren Vot: a verified model

This project models the cryptographic and protocol core of the voting system in Dafny and proves
what the system relies on it for. `dafny verify dfyconfig.toml` checks every file.

What is modelled, and the main results:

* **The Merkle log** (`Bits`, `Rfc9162`, `MerkleHash`, `MerkleTree`, `MerkleVerify`, `MerkleTheorems`,
  `MerkleBinding`). The tree stores every complete aligned subtree and answers heads, inclusion
  proofs and consistency proofs from them; its answers are those of section 2.1 of RFC 9162. The Go
  and the TypeScript verifiers walk up from the leaf. The walk is shown equal to a top-down
  recursion, and from that follow completeness at every size, and soundness with one head trusted:
  an accepted proof is the RFC's own proof for the listed leaves, or the lemma computes two inputs on
  which the node hash collides. The hashes are parameters without axioms; with the prefixes of the
  source over any 32-byte digest, a clash is a collision of that digest.
* **Threshold decryption** (`Scalars`, `Groups`, `Lagrange`, `Feldman`, `Dkg`, `Bsgs`, `ElGamal`,
  `Decrypt`, `Tally`, `DecryptTheorems`, `TallyTheorems`, `Ballots`). Scalars are integers modulo a
  prime; inverses come from extended Euclid, interpolation from polynomial division. No plaintext is
  published over a partial that does not verify, and the results are composed up to: whichever
  trustees form the quorum, the published number of a party is the number of ballots that encrypt 1
  for it.
* **Sigma protocols** (`Sigma`, `SigmaTheorems`, `Transcripts`, `Framing`, `BallotValidity`,
  `BallotProofs`). The Fiat-Shamir hash is an arbitrary function of the transcript. Acceptance is
  characterised with every transcript written out, and the bytes of a transcript determine it.
  Completeness is exact (if and only if), special soundness extracts openings, and honest proofs can
  be made without the witness. For a whole ballot: the honest prover's proofs of a valid one are all
  accepted, and one that the four verifiers accept twice is valid.
* **The decryption ceremony** (`Ceremony`, `CeremonyHandler`, `CeremonySafety`, `CeremonyReplies`,
  `CeremonyHistory`, `CeremonyResults`, `CeremonyProgress`). Each critical section of the handler is one
  atomic step; every interleaving with the background tally, and every failed save, is a run. The class
  methods are proved against step functions, the runs are proved safe, every state is traced back to
  the requests and fetches that made it, every reply is characterised, and the results that are shown
  are the votes.
* **The bulletin board and its clients** (`Board`, `BoardSafety`, `BoardHistory`, `BoardProofs`,
  `BoardClient`). The in-memory tree against the database table, over appends, seals, restarts and
  failing database calls; exactly when the board is sealed, what it answers, which ballots it proves
  and which of its heads are consistent; paging by cursor while the board grows.
* **Override chains** (`VoterMap`, `VoterMapSafety`, `ActiveSet`). The hash-chained submission history,
  its audit, the two enumerations, and which ballots the tally counts as a consequence.

Conventions: an operation that updates state is a class method or a loop, proved equal to a function
of the state before it; the theorems are about those functions. Panics of the Go code are `None` or
`Panic` and are shown not to occur. Reply, fault and outcome parameters stand for what the file
system, the network and the database do. `Groups.GroupsExist` and
`Transcripts.CodecsExist` show that the hypotheses on the group and on the encodings can be met.

## Where the code falls short of its documentation

* `InsertBallot` is documented to report a taken position as a position conflict, and `AppendBallot`
  to retry on it. It looks for "ballot" in the constraint's name, and PostgreSQL names both
  constraints of the table after the table `ballots`, so a taken position reads as a duplicate ballot
  and the retry never happens (`ConflictReadsAsDuplicate`, `NeverRetries`, `UnstoredDuplicate`). It
  happens for exactly the constraints whose name does not contain "ballot" (`RetriesExactly`).
* `AppendBallot` is documented to keep the tree in step with the table. One call does, if and only if
  no other writer adds a row in between and no insert is stored with its reply lost
  (`AppendAgreement`). Over a run with one writer, tree and table agree at a moment if and only if no
  stored insert has lost its reply since the last restart (`RunAgreement`). From then on exactly the
  ballots before the first lost one are proved at their positions (`GetBallotVerifies`,
  `LostReplyMisplaces`). A restart brings the tree back in step with the table, and by that it
  contradicts the heads published since the loss: short of a collision, no consistency proof joins a
  head that has a leaf out of place to one after a restart (`HeadsConsistent`, `ForkedHeads`).
* The giant-step search is documented to answer -1 when there is no logarithm up to max. It does so for
  every target if and only if its last window ends within the Go ints (`AnswersAsDocumented`); for the
  largest max it answers -2^63 for one target (`SearchWraps`). No caller passes such a max.

## Limits, made exact

* A submission that fails verification does not occupy the trustee's place, as documented; one that is
  recorded and then answered 500 does, which no document covers. `UnchangedByReply` says exactly which
  replies leave the ceremony as it was. A ceremony with a quorum recorded keeps awaiting trustees if and
  only if the last recorded submission was not saved or some slot's plaintext is beyond MaxDecrypt
  (`AwaitingWithQuorum`); `StuckRun` is a run that gets there, and `ExhaustedForever` shows that it never
  leaves when every known trustee has been recorded.
* A proof does not bind sizes on its own. Two pairs of index and size, or of sizes, get the same
  verdicts if and only if the verifier takes the same turns at both, whatever the node hash
  (`InclusionBinding`, `ConsistencyBinding`); the documented examples are instances.
* The override audit compares a chain with nothing but itself. A chain that passes and ends in a stored
  row hash is the stored chain up to that row, with any channels and times (`AuditAccepts`); it is the
  voter's whole record if and only if it has as many rows (`AuditBlindSpots`), which a caller that
  keeps the number of rows, or the last row hash, can compare (`StoredHashPinsHistory`).
* A voter with the empty hash is left out of the Postgres enumeration, and no other is
  (`GroupingRecovers`).

## Model

| member | source | states |
|---|---|---|
| `Bits.PowerTest` | crypto/merkle/tree.go:165 | `n & (n-1) == 0` holds exactly for the powers of two |
| `Bits.AlignTest` | crypto/merkle/tree.go:166-168 | `lo & (n-1) == 0`, for n a power of two, holds exactly when lo is a multiple of n |
| `Bits.SplitPointIsLargest` | crypto/merkle/tree.go:178-180 | splitPoint is the RFC's k, the largest power of two below n |
| `Rfc9162.HeadsBind` | crypto/merkle/hash.go:55-61 | two leaf lists with one head are equal, or a node-hash collision is computed |
| `Rfc9162.HeadBindsData` | docs/protocol/merkle.md:26-34 | lists of leaf data of any two sizes under one head are equal, or a hash clash (two nodes, two leaves, a leaf and a node, or the empty tree and either) is computed |
| `MerkleHash.ClashIsCollision` | crypto/merkle/hash.go:36-61 | with SHA-256 any function to 32 bytes: every clash between leaves, nodes and the empty tree gives two different inputs of SHA-256 with one digest |
| `MerkleHash.HeadBinds` | docs/protocol/merkle.md:28-34 | two lists of leaf data, of any sizes, under one head are equal, or a collision of SHA-256 is computed |
| `Rfc9162.AppendsKeepAnswers` | crypto/merkle/tree.go:56-70 | after any appends, every head, inclusion proof and consistency proof of an earlier size is unchanged |
| `Rfc9162.SevenLeaves` | docs/protocol/merkle.md:26-51 | the worked example of section 2.1.5 of RFC 9162: the head of seven leaves, four audit paths and three consistency proofs |
| `MerkleTree.LevelsInvariant` | crypto/merkle/tree.go:15-20 | levels[L][i] is the head of leaves i·2^L to (i+1)·2^L, and level L has Size() >> L entries |
| `MerkleTree.HashRangeIsMth` | crypto/merkle/tree.go:160-174 | on every range the recursion visits, hashRange neither panics nor leaves the stored levels, and is MTH |
| `MerkleTree.PanicsExactly` | crypto/merkle/tree.go:160-174 | on a range of 2^e leaves it panics iff the range is not aligned or not stored |
| `MerkleTree.PathIsAuditPath` | crypto/merkle/tree.go:91-103 | path appends exactly PATH(m, D[lo:hi]) |
| `MerkleTree.SubProofOfIsSubProof` | crypto/merkle/tree.go:132-151 | subproof appends exactly SUBPROOF(m, D[lo:hi], b) |
| `MerkleTree.CarryContinues` | crypto/merkle/tree.go:34-44 | a pass of Append on a right child completes the parent's hash for the next level |
| `MerkleTree.CarryStops` | crypto/merkle/tree.go:34-44 | a pass of Append on a left child leaves all levels complete for the longer list |
| `MerkleTree.Tree.Append` | crypto/merkle/tree.go:29-46 | appends one leaf hash at index Size() and keeps the levels invariant |
| `MerkleTree.Tree.Size` | crypto/merkle/tree.go:49-54 | the number of appended leaves |
| `MerkleTree.Tree.RootAt` | crypto/merkle/tree.go:65-70 | MTH of the first size leaves, an error beyond Size(), never a panic |
| `MerkleTree.Tree.Root` | crypto/merkle/tree.go:58-60 | MTH of all leaves |
| `MerkleTree.Tree.InclusionProof` | crypto/merkle/tree.go:79-87 | PATH(index, D[0:size]), with the two range errors in the source's order |
| `MerkleTree.Tree.ConsistencyProof` | crypto/merkle/tree.go:113-123 | PROOF(size1, D[0:size2]), empty at sizes 0 and size2, with the range error |
| `MerkleVerify.VerifyInclusion` | crypto/merkle/verify.go:17-47 | the loop computes the verdict of the section 2.1.3.2 walk; its inner climb never stops on fn = 0 |
| `MerkleVerify.VerifyConsistency` | crypto/merkle/verify.go:68-136 | the loop computes the verdict of the section 2.1.4.2 walk, trivial sizes included; which verdict that is for any root1 is `ConsistencyPins` |
| `MerkleVerify.WalkIsRise` | crypto/merkle/verify.go:23-42 | the bottom-up inclusion walk equals a top-down recursion over the split points |
| `MerkleVerify.WalkIsRebuild` | crypto/merkle/verify.go:93-130 | the bottom-up consistency walk equals a top-down recursion that rebuilds both heads |
| `MerkleVerify.InclusionLength` | crypto/merkle/verify.go:17-47 | an accepted inclusion proof has at most Len64(size-1) hashes |
| `MerkleVerify.ConsistencyLength` | crypto/merkle/verify.go:68-136 | an accepted consistency proof has at most Len64(size2-1)+1 hashes |
| `MerkleVerify.SafeLength` | web/src/crypto/merkle.ts:11-13 | for safe-integer sizes those bounds stay within the cap of 64 |
| `MerkleVerify.VerifyInclusionWeb` | web/src/crypto/merkle.ts:95-132 | on safe integers it accepts exactly what the Go verifier accepts, the cap included |
| `MerkleVerify.VerifyConsistencyWeb` | web/src/crypto/merkle.ts:139-198 | the same for consistency proofs |
| `MerkleTheorems.InclusionComplete` | crypto/merkle/tree.go:79-103 | for every leaf of every size of every log, the tree's own proof verifies against the head of that size |
| `MerkleTheorems.InclusionSound` | crypto/merkle/verify.go:17-47 | what verifies against the head of D is leaf index of D with exactly PATH(index, D), or a collision is computed |
| `MerkleTheorems.ConsistencyComplete` | crypto/merkle/tree.go:113-151 | for all m <= n of every log, the tree's own proof verifies between the two heads |
| `MerkleTheorems.ConsistencyPins` | docs/protocol/merkle.md:56-60 | with the larger head alone trusted: whatever root1 and proof are, acceptance makes root1 the head of the first size1 leaves (at size 0 the empty root) and the proof exactly PROOF(size1, D[size2]), or a collision is computed |
| `MerkleTheorems.ConsistencySound` | crypto/merkle/verify.go:68-136 | acceptance makes the smaller list a prefix of the larger and the proof exactly PROOF(m, D[n]), or a collision is computed |
| `MerkleTheorems.RangeErrors` | crypto/merkle/verify.go:17-71 | each verifier reports its own range error exactly for an index not below the size, or a smaller size above the larger, and never the other one |
| `MerkleBinding.WalkIsFold` | crypto/merkle/verify.go:23-45 | a walk takes exactly one proof hash per turn, and the turns depend on the two counters only |
| `MerkleBinding.InclusionBinding` | crypto/merkle/verify.go:17-47 | two pairs of index and size get one verdict for all hashes, leaves, proofs and roots iff they have the same turns; otherwise, for every node hash, an input is computed that verifies at the first pair only, or the node hash collides |
| `MerkleBinding.InclusionAtBoth` | crypto/merkle/verify.go:17-47 | what verifies at two pairs has the same turns there, or the node hash collides, or a proof hash equals the running hash |
| `MerkleBinding.InclusionDoesNotBindSize` | docs/protocol/merkle.md:47 | the documented instance: index 2 of 3 and index 1 of 2 always get the same verdict |
| `MerkleBinding.ConsistencyBinding` | crypto/merkle/verify.go:68-136 | two pairs of sizes, 0 < size1 < size2, get one verdict for all hashes, roots and proofs iff the walk has the same start and turns; otherwise, for every node hash, an input is computed that verifies at exactly one of them, or the node hash collides |
| `MerkleBinding.ConsistencyAtBoth` | crypto/merkle/verify.go:68-136 | what verifies at two pairs of sizes walks in one shape there, or the node hash collides, or a proof hash equals a running hash |
| `MerkleBinding.ConsistencyDoesNotBindSizes` | docs/protocol/merkle.md:60 | the documented instance: sizes 2 and 3, and sizes 1 and 2 |
| `Scalars.NonZeroIsUnit` | crypto/threshold/feldman.go:155-180 | modulo a prime every non-zero residue has an inverse, found by extended Euclid |
| `Groups.BaseMulInjective` | crypto/internal/bsgs.go:16-56 | the base multiple determines the scalar modulo q |
| `Lagrange.DenIsUnit` | crypto/threshold/feldman.go:155-180 | for indices distinct modulo q every Lagrange denominator is invertible |
| `Lagrange.Interpolation` | crypto/threshold/feldman.go:109-132 | for every polynomial of at most as many coefficients as there are distinct points, the Lagrange sum at zero is f(0) |
| `Feldman.CheckIndices` | crypto/threshold/feldman.go:200-214 | accepts exactly duplicate-free lists in 1..2^32-1, and which of the two errors it reports |
| `Feldman.EvaluatePolynomial` | crypto/threshold/feldman.go:216-227 | the Horner loop computes the polynomial's value; a negative argument is refused |
| `Feldman.VerifyShare` | crypto/threshold/feldman.go:76-106 | accepts exactly when there are t present commitments, a share, a valid index, and the group equation holds |
| `Feldman.ShareIsValue` | crypto/threshold/feldman.go:69-106 | that is: exactly when the share is f(index) for the committed polynomial of exactly t coefficients |
| `Feldman.LagrangeAt` | crypto/threshold/feldman.go:155-180 | the loop computes the Lagrange coefficient at zero of the index at pos |
| `Feldman.LagrangeCoefficient` | crypto/threshold/feldman.go:141-149 | the same for callers, with the three argument errors in order |
| `Feldman.LagrangeInterpolate` | crypto/threshold/feldman.go:109-132 | the weighted sum of the shares, with the five argument errors in order |
| `Feldman.Reconstruction` | crypto/threshold/feldman.go:109-180 | any t or more distinct indices, t the number of coefficients, in any order, over values f(i)·c give f(0)·c, and no denominator vanishes |
| `Dkg.NewDealer` | crypto/threshold/feldman.go:31-57 | commitments to t coefficients and the polynomial's values at 1..n, for 1 <= t <= n only |
| `Dkg.DealtShareAccepted` | crypto/threshold/dkg.go:46-59 | a dealer's own share always passes VerifyShare |
| `Dkg.RunDkg` | crypto/threshold/dkg.go:28-80 | never fails on its own shares; all combined shares lie on one polynomial F of t coefficients, verification keys are F(i)·G, the election key is F(0)·G |
| `Dkg.Distribute` | crypto/threshold/dkg.go:46-59 | every participant receives and accepts every dealer's value at its own index |
| `Dkg.JointValue` | crypto/threshold/dkg.go:61-74 | the sum of the dealers' values is the value of the sum of their polynomials |
| `Bsgs.BabyStepGiantStep` | crypto/internal/bsgs.go:16-56 | for every max whose least step squares within a Go int, negative ones included, and every target: the discrete logarithm when it is at most max, else -1, or the wrapped sum when it leaves the Go ints in the last window; with the least step whose square reaches max and at most step + 2 giant steps |
| `Bsgs.AnswersAsDocumented` | crypto/internal/bsgs.go:14-15 | it is -1 for every logarithm beyond max iff the last window ends within the Go ints |
| `Bsgs.SearchWraps` | crypto/internal/bsgs.go:43-53 | for max = 3037000499 squared and the logarithm 2^63 the answer is -2^63 |
| `Bsgs.StepFits` | crypto/internal/bsgs.go:17-20 | the square of the step fits a Go int exactly when max is at most 3037000499 squared |
| `ElGamal.EncryptEncrypts` | crypto/elgamal/elgamal.go:59-80 | a produced ciphertext encrypts m with randomness r |
| `ElGamal.EncryptExact` | crypto/elgamal/elgamal.go:59-71 | it refuses exactly an identity key, a zero randomness and a negative plaintext, in this order |
| `ElGamal.HomomorphicAdd` | crypto/elgamal/elgamal.go:83-94 | the accumulating loop computes the componentwise sum |
| `ElGamal.SumEncrypts` | crypto/elgamal/elgamal.go:83-94 | the homomorphic sum encrypts the sum of the plaintexts |
| `ElGamal.PlaintextUnique` | crypto/elgamal/elgamal.go:59-80 | a ciphertext has one plaintext modulo q |
| `ElGamal.Decrypt` | crypto/elgamal/elgamal.go:99-104 | inverts encryption under its key up to MaxDecrypt, -1 beyond |
| `Ballots.EncodeBallot` | crypto/elgamal/ballot.go:30-50 | slot i encrypts 1 exactly when i is the choice; fails exactly on an identity key or a zero coin |
| `Ballots.TallyBallots` | crypto/elgamal/ballot.go:111-169 | succeeds exactly on ballots of one shape, and then holds the sum of every party and candidate slot |
| `Ballots.ShapeExactly` | crypto/elgamal/ballot.go:82-145 | the shape check passes iff one shape is common to all ballots, whichever comes first |
| `Ballots.TallySlotsEncrypt` | crypto/elgamal/ballot.go:109-169 | every party slot and every candidate slot of the tally encrypts the sum of its own votes |
| `Ballots.TalliesAgree` | crypto/elgamal/ballot.go:109-169 | ComputeTally over the serialized party vectors and TallyBallots agree slot by slot |
| `Sigma.ChaumPedersenComplete` | crypto/proof/chaumpedersen.go:28-88 | the honest proof verifies if and only if the challenge annihilates both statement errors; always for a true statement |
| `Sigma.ChaumPedersenSound` | crypto/proof/chaumpedersen.go:58-88 | two accepted responses to different challenges give one x with A = x·g and B = x·h |
| `SigmaTheorems.ChaumPedersenExact` | crypto/proof/chaumpedersen.go:58-107 | acceptance is exactly the two equations under the hash of context, g, h, A, B and both commitments |
| `SigmaTheorems.FalseChaumPedersen` | crypto/proof/chaumpedersen.go:58-88 | for elements with no common logarithm and fixed commitments, at most one answer of the hash to the transcript lets any response through |
| `SigmaTheorems.ChaumPedersenHides` | crypto/proof/chaumpedersen.go:28-54 | every proof that verifies for a challenge is the honest one for some nonce, and is computed from challenge and response without the witness |
| `Sigma.BinaryComplete` | crypto/proof/binary.go:66-196 | for every plaintext m and all randomness, the prover claiming bit b makes a verifying proof iff e_b·(m - b) = 0 |
| `Sigma.AcceptedFork` | crypto/proof/binary.go:80-138 | two accepting verifications with equal commitments and different challenges are a fork |
| `SigmaTheorems.BinaryExact` | crypto/proof/binary.go:80-138 | acceptance is exactly: ids and key present, and five equations under the hash of domain, context, key, ciphertext and all four commitments; and which error otherwise |
| `SigmaTheorems.BinaryChallengeBinds` | crypto/proof/binary.go:130-138 | two binary proofs have one challenge under a computed hash function iff domain, context, key, ciphertext and all commitments agree |
| `Sigma.BinarySound` | crypto/proof/binary.go:80-128 | a fork opens the ciphertext to 0 or to 1 |
| `SigmaTheorems.FalseBinary` | crypto/proof/binary.go:80-128 | for a plaintext other than 0 and 1 and fixed commitments, at most one answer of the hash to the transcript lets any proof through |
| `SigmaTheorems.BinaryHides` | crypto/proof/binary.go:141-196 | for every challenge, split of it and responses, the simulated proof is the honest one of some coins, whether the plaintext is 0 or 1 |
| `SigmaTheorems.ProversRefuse` | crypto/proof/binary.go:66-78 | the provers refuse exactly an empty id, an identity key, an empty vector and a claimed plaintext that is no bit |
| `Sigma.SumOneComplete` | crypto/proof/sum.go:22-85 | the honest sum proof verifies iff e·(sum - 1) = 0 |
| `Sigma.SumAcceptedFork` | crypto/proof/sum.go:52-85 | two accepting verifications with equal commitments and different challenges satisfy the equations under both |
| `Sigma.SumOneSound` | crypto/proof/sum.go:52-85 | a fork opens the aggregate to 1 |
| `SigmaTheorems.SumOneExact` | crypto/proof/sum.go:52-114 | acceptance is exactly: ids, key and vector present, and two equations under the hash of the sum domain, context, key, aggregate and both commitments |
| `SigmaTheorems.SumChallengeBinds` | crypto/proof/sum.go:106-114 | two sum proofs have one challenge under a computed hash function iff context, key, aggregate and commitments agree |
| `SigmaTheorems.FalseSumOne` | crypto/proof/sum.go:52-85 | for a vector that does not sum to 1 and fixed commitments, at most one answer of the hash to the transcript lets any response through |
| `SigmaTheorems.SumOneHides` | crypto/proof/sum.go:22-49 | the simulated sum proof is the honest one for some nonce |
| `Sigma.ConsistencyComplete` | crypto/proof/candidate.go:52-107 | the honest consistency proof over the difference verifies iff e_b·(m - S - b) = 0 |
| `SigmaTheorems.AggregatesExact` | crypto/proof/candidate.go:32-107 | the candidate-sum and consistency verifiers are the binary one on the aggregate and on the difference, each under its own domain |
| `Framing.FramedInjective` | docs/protocol/fiat-shamir.md:19-36 | length-prefixed fields below 2^32 bytes can be read back: one byte string stands for one list of fields |
| `Transcripts.BallotInputBinds` | docs/protocol/fiat-shamir.md:58-72 | one hash input stands for one domain, election, ballot, index and list of statement points and commitments, so a proof cannot move to another election, ballot or slot |
| `Transcripts.DomainsSeparate` | docs/protocol/fiat-shamir.md:111-124 | no ballot proof shares a hash input with a Chaum-Pedersen proof |
| `Transcripts.BallotDomainsSeparate` | docs/protocol/fiat-shamir.md:118-124 | the five domains are different |
| `Transcripts.PartialInputBinds` | crypto/threshold/decrypt.go:201-215 | one hash input stands for one election, trustee, slot, ciphertext, tally, key, value and commitment of a partial decryption |
| `Transcripts.TallyInputBinds` | crypto/threshold/decrypt.go:52-76 | one input of the tally digest stands for one vector of ciphertexts, in one order |
| `BallotValidity.VectorSound` | crypto/proof/binary.go:80-128 | forks on every entry of a vector open it to bits |
| `BallotValidity.ExactlyOneParty` | crypto/proof/sum.go:52-85 | bits that sum to 1 modulo q, in fewer than q slots, are one 1 and zeros |
| `BallotValidity.CandidatesUnderParty` | crypto/proof/candidate.go:32-82 | the candidate bits of a party sum to at most the party's own bit |
| `BallotValidity.BallotValid` | crypto/proof/candidate.go:36-82 | forks of all proofs together: exactly one party, and at most one candidate, only under that party; the last party slots, as the blank one, may have no candidates |
| `BallotProofs.AcceptedBallotValid` | docs/protocol/ballot-proofs.md:619-642 | a ballot whose binary, sum-one, candidate-sum and consistency proofs the four verifiers accept under two hash functions, each at its own domain and statement index, with equal commitments and different challenges, encrypts one party and at most one of its candidates |
| `BallotProofs.HonestBallotAccepted` | docs/protocol/ballot-proofs.md:619-642 | the converse for the honest prover: its proofs for such a ballot are all accepted, for every hash function and all randomness |
| `BallotProofs.OwnIndices` | docs/protocol/ballot-proofs.md:633-639 | no two slots of a ballot have one statement index |
| `BallotProofs.EveryIndex` | docs/protocol/ballot-proofs.md:633-639 | and none is skipped |
| `Decrypt.HonestPartialVerifies` | crypto/threshold/decrypt.go:82-127 | an honest PartialDecrypt output always passes VerifyPartial under the share's key |
| `Decrypt.PartialSound` | crypto/threshold/decrypt.go:104-127 | a partial accepted under key x·g by two hash functions, with one commitment and two challenges, has the value x·c1 |
| `DecryptTheorems.PartialExact` | crypto/threshold/decrypt.go:103-127 | a partial is accepted exactly when the election id and the partial are there, the index is in 1..2^32-1 and two equations hold under the hash of the whole slot context and statement; and which error otherwise |
| `DecryptTheorems.FalsePartial` | crypto/threshold/decrypt.go:103-127 | for a value that is not the share times c1 and a fixed commitment, at most one answer of the hash to the transcript lets any response through |
| `DecryptTheorems.PartialDecryptExact` | crypto/threshold/decrypt.go:82-101 | a trustee computes its share times c1 under its own index, and when it refuses |
| `Decrypt.Combine` | crypto/threshold/decrypt.go:137-188 | the plaintext of the weighted partials, or the first error in the source's order of checks; an answer means that every partial verified under its own trustee's key |
| `DecryptTheorems.CombinationExact` | crypto/threshold/decrypt.go:137-188 | a plaintext is given iff the partials are complete, each verifies under the key of its own trustee and the combination is in range, and it is the logarithm of c2 less the weighted values; when complete, the first partial that fails decides the error |
| `DecryptTheorems.CombinationErrors` | crypto/threshold/decrypt.go:137-162 | the errors before any proof is looked at, each with the checks that precede it |
| `Decrypt.ThresholdDecryption` | crypto/threshold/decrypt.go:129-188 | any t distinct accepted trustees, in any order, give m when m <= maxPlaintext and the out-of-range error otherwise |
| `Tally.ComputeTally` | tally/ceremony/tally.go:34-76 | one homomorphic sum per party slot, or the error of the first bad ballot |
| `DecryptTheorems.TallyExact` | tally/ceremony/tally.go:34-76 | a tally stands for all the ballots: there is one iff there are ballots and all decode to the number of slots of the first; otherwise the first that does not decides the error |
| `Tally.GatherPartials` | tally/ceremony/tally.go:112-122 | the slot's partials in trustee order, or the first missing or misattributed one |
| `Tally.DecryptTally` | tally/ceremony/tally.go:96-132 | one plaintext per slot in slot order, or the first error |
| `DecryptTheorems.DecryptionExact` | tally/ceremony/tally.go:96-132 | published are one plaintext per slot, in slot order, over exactly the quorum asked for, each the logarithm that the quorum's own verified partials leave; otherwise the length errors come first and then the first slot without a plaintext decides the error |
| `TallyTheorems.SlotEncryptsTotal` | tally/ceremony/tally.go:58-70 | every sum encrypts the sum of the votes in its slot |
| `TallyTheorems.PublishedCounts` | tally/ceremony/tally.go:34-132 | end to end: any delivering quorum publishes for each party the number of ballots that encrypt 1 there, unless a count exceeds MaxDecrypt |
| `TallyTheorems.QuorumIrrelevant` | tally/ceremony/tally.go:96-132 | two quorums, of any members and order, publish the same results |
| `TallyTheorems.CountsSumToBallots` | tally/ceremony/tally.go:34-132 | for one-hot ballots the counts sum to the number of ballots |
| `TallyTheorems.HonestTrusteeDelivers` | crypto/threshold/decrypt.go:82-127 | a participant of RunDkg that decrypts honestly delivers what PublishedCounts needs |
| `TallyTheorems.HonestElection` | crypto/threshold/dkg.go:28-80 | key generation, any threshold of honest partial decryptions with any randomness, and DecryptTally together publish the counts |
| `TallyTheorems.TallyOrderIrrelevant` | tally/ceremony/tally.go:34-76 | permuted ballots give the same sums |
| `TallyTheorems.ResultsOrderIrrelevant` | tally/ceremony/tally.go:34-132 | permuted ballots, decrypted by any delivering quorums, publish the same results |
| `CeremonyHandler.CeremonyState.constructor` | tally/state.go:322-340 | a fresh ceremony: fetching, empty partials and order, no results |
| `CeremonyHandler.CeremonyState.SetPhase` | tally/state.go:294-297 | the phase is assigned whether or not the save succeeds |
| `CeremonyHandler.FilterActive` | tally/handler.go:227-240 | the ballots of the active set in board order; all of them for an empty set |
| `CeremonyHandler.CeremonyHandler.HandleStart` | tally/handler.go:135-197 | the reply in the order of the checks; only 202 replaces the ceremony |
| `CeremonyReplies.StartExact` | tally/handler.go:135-197 | 202 exactly for a non-empty active set, no ceremony in progress, a board that is reached and sealed, and a state created and saved; and when each refusal is given |
| `CeremonyHistory.EveryCeremonyStarted` | tally/handler.go:135-197 | in every run, each ceremony was started by such a request, on a sealed board and after the one before had failed or was finalized, and keeps its id, election and active set |
| `CeremonyHandler.CeremonyHandler.RunTallyFetched` | tally/handler.go:215-259 | the state after the fetch, with its two error exits |
| `CeremonyHandler.CeremonyHandler.RunTallyComputed` | tally/handler.go:261-280 | the state after the tally |
| `CeremonyHistory.PhaseExact` | tally/handler.go:215-284 | in every reachable state the phase, the tally and both counts of a ceremony are what its own fetch and tally brought: fetching until a fetch is in, tallying while active ballots are in and no tally, failed iff one of them failed or no ballot is active |
| `CeremonyHandler.DecodeElements` | tally/handler.go:366-411 | every slot filled once, or the code of the first bad element |
| `CeremonyHandler.VerifyElements` | tally/handler.go:424-434 | accepts exactly when every slot verifies under the trustee's key |
| `CeremonyHandler.CeremonyHandler.HandlePartialDecryption` | tally/handler.go:316-463 | new state and reply for every request and every save outcome |
| `CeremonyReplies.DecodeExact` | tally/handler.go:366-411 | the elements decode iff they are well formed and name different parties in range, and each is then stored at its own party's slot |
| `CeremonyReplies.RecordedIff` | tally/handler.go:316-434 | a submission is recorded iff id and phase are right, the trustee is known and new, and there is one well-formed, verified element for every slot |
| `CeremonyReplies.SubmitExact` | tally/handler.go:316-463 | the reply to every other submission is that of the first check that fails; to a recorded one, what saving and decrypting made of it |
| `CeremonyReplies.RecordedEffect` | tally/handler.go:436-463 | a recorded vector is stored for its trustee, last in the order, and decrypted exactly when five are there, it was saved and no slot is beyond MaxDecrypt |
| `CeremonyHistory.EveryVectorSubmitted` | tally/handler.go:316-463 | in every run, each stored vector was submitted for that ceremony by its own trustee's request, acceptable at that moment |
| `CeremonyHandler.CeremonyHandler.DecryptLocked` | tally/handler.go:511-535 | results over the first five trustees; the phase moves even when its save fails |
| `CeremonyHandler.CeremonyHandler.HandleFinalize` | tally/handler.go:570-603 | only a decrypted ceremony is finalized |
| `CeremonyReplies.FinalizeExact` | tally/handler.go:570-603 | finalized exactly for the ceremony's own id in the decrypted phase, saved or not; and when each reply is given |
| `CeremonyHistory.EveryFinalizationAsked` | tally/handler.go:570-603 | in every run, a finalized ceremony was finalized by a request with its id while it was current and decrypted |
| `CeremonyHandler.CeremonyHandler.HandleResults` | tally/handler.go:537-568 | results are shown only in the decrypted and finalized phases, and are the stored ones; which those are over a run is `ResultsAnswer` |
| `CeremonyReplies.ResultsAnswer` | tally/handler.go:537-568 | in every run, with the pointer read at one moment and the ceremony at a later one: 200 exactly for the ceremony's own id once decrypted, with what the first five stored vectors leave in each slot, in slot order; any other phase or id gets 409 or 404 and no results |
| `CeremonyReplies.ShownResultsAreVotes` | tally/handler.go:537-568 | for honest values of the first five these are the numbers of votes, in party order, and every later read of that id is answered alike |
| `Ceremony.Contexts` | tally/handler.go:477-506 | a context per slot of the vector, in slot order, or none when tally and party count disagree |
| `CeremonyHistory.RunContexts` | tally/handler.go:477-506 | in every reachable state there are contexts iff the election has an id and there is a tally; each carries the election, its own slot and the digest of the whole tally |
| `CeremonySafety.StepSafe` | tally/handler.go:135-603 | every step keeps the invariant: order and partials agree without repeats, every stored vector is complete and verified for its trustee, results exist exactly once decrypted, only the newest ceremony is live |
| `CeremonySafety.RunInvariant` | tally/handler.go:135-603 | that invariant holds at every moment of every interleaved run |
| `CeremonySafety.RunSafety` | tally/handler.go:135-603 | between any two moments of a run phases only moved forward, results and stored partials did not change, and a replaced ceremony was not written |
| `CeremonySafety.UnchangedByReply` | tally/handler.go:135-603 | a request leaves the whole system as it was iff it is a read, a start not answered 202, a submission answered 4xx, 503 or already submitted, or a finalization answered 4xx |
| `CeremonyProgress.AwaitingWithQuorum` | tally/handler.go:436-458 | in every reachable state, a ceremony with five or more recorded submissions is awaiting trustees iff the last recorded one was not saved or the stored shares of the first five leave a plaintext beyond MaxDecrypt in some slot |
| `CeremonyProgress.SavedQuorumDecrypts` | tally/handler.go:436-463 | a saved submission that completes a quorum of honest values decrypts to the counts, and with a count beyond MaxDecrypt is answered 500 |
| `CeremonyProgress.ExhaustedForever` | tally/handler.go:157-163 | once every known trustee of an awaiting ceremony is recorded, no step of any run changes anything, a new start included |
| `CeremonyProgress.StuckRun` | tally/handler.go:436-442 | for every prepared election and five ready trustees, a run whose fifth save fails and that keeps awaiting with five recorded |
| `CeremonyProgress.DecryptedRun` | tally/handler.go:436-458 | the same run with that save succeeding ends decrypted with the counts |
| `CeremonyProgress.HonestIsReady` | crypto/threshold/decrypt.go:82-127 | a participant of the key generation that decrypts honestly is a ready trustee |
| `CeremonyProgress.HonestIsEncodable` | tally/state.go:93-106 | what it sends has no identity element, unless its share, a coin or a sum is zero |
| `CeremonyResults.FirstFiveDecrypts` | tally/handler.go:511-535 | in every reachable state with five recorded trustees, decryptLocked gives what the first five stored shares leave in each slot, and fails iff that is beyond MaxDecrypt in some slot; no missing, misattributed, unknown, duplicate or unverified partial can be the cause |
| `CeremonyResults.ResultsAreVotes` | tally/handler.go:227-284 | in every reachable state, the results of a decrypted ceremony are the numbers of ballots that encrypt 1 among the active-set ballots of what an earlier step fetched, for honest values of the first five trustees |
| `CeremonyResults.ResultsFromForks` | tally/handler.go:413-434 | the same with no honesty assumed, when the stored vectors of the first five are accepted a second time under another hash function, for the same values and commitments and other challenges |
| `Board.InsertBallotEffect` | bulletin-board/store/postgres.go:154-170 | a row is added iff the insert is not refused and id and position are free; no other row changes; which reply follows in each case |
| `Board.Store.GetBallot` | bulletin-board/store/postgres.go:178-193 | the row with an id, if there is one |
| `Board.Board.constructor` | bulletin-board/board/board.go:40-60 | the tree of the stored rows in position order, and the stored sealed flag; over a run that flag is `SealedExactly` |
| `Board.Board.SetValidator` | bulletin-board/board/board.go:32-36 | sets the proof check and nothing else |
| `Board.Board.AppendBallot` | bulletin-board/board/board.go:72-129 | state and reply for every validator, fault and rival insert, through the retry loop |
| `Board.Board.ProveInclusion` | bulletin-board/board/board.go:151-163 | proof, size and root of one and the same tree, or an error when the position is not in it |
| `Board.Board.Seal` | bulletin-board/board/board.go:186-194 | the stored flag first, then the flag in memory |
| `BoardSafety.EncodeLeafInjective` | bulletin-board/board/board.go:208-218 | for fields below 2^32 bytes the leaf encoding is injective |
| `BoardSafety.LeafIsFramed` | docs/protocol/merkle.md:24 | the leaf encoding is the length-prefixed id, ballot and proofs |
| `Board.ConflictReadsAsDuplicate` | bulletin-board/store/postgres.go:160-165 | both unique constraints are read as a duplicate ballot |
| `Board.ReadsConstraintName` | bulletin-board/store/postgres.go:154-170 | a constraint is read as a duplicate ballot iff "ballot" occurs in its name, and as a position conflict otherwise |
| `BoardSafety.NeverRetries` | bulletin-board/board/board.go:94-121 | the loop makes one pass, and the duplicate error means that the id or the position was taken |
| `BoardSafety.RetriesExactly` | bulletin-board/board/board.go:94-121 | for every choice of constraint names: the loop goes on exactly while passes violate a constraint whose name does not contain "ballot", each on the table that other writers have left, and reports a position conflict iff all passes do |
| `BoardSafety.UnstoredDuplicate` | bulletin-board/board/board.go:111-113 | with a second writer a ballot that is stored nowhere is refused as a duplicate |
| `BoardSafety.AppendOutcome` | bulletin-board/board/board.go:72-129 | with no other writer: exactly when an append succeeds and what it then adds, and that a failed one changes nothing unless its reply was lost |
| `BoardSafety.AppendAgreement` | bulletin-board/board/board.go:68-129 | tree and table stay in agreement over an append iff no other writer added a row in between and no insert was stored with its reply lost |
| `BoardSafety.LostReplyMisplaces` | bulletin-board/board/board.go:108-123 | the shortest loss: the first ballot is stored with its reply lost, the second is accepted at position 2, and the board then has no proof for it and proves it in the first one's place |
| `BoardSafety.RunTable` | bulletin-board/board/board.go:94-121 | in every single-writer run positions are 1..n and ids unique, whatever fails |
| `BoardSafety.RunAgreement` | bulletin-board/board/board.go:40-129 | in every single-writer run, the tree is that of the encoded rows in position order iff no stored insert lost its reply since the last restart; otherwise leaves are missing |
| `BoardSafety.RowsStay` | bulletin-board/store/migrations/003_append_only.sql:1-3 | no step of any run changes or removes a row |
| `BoardSafety.SealedStays` | bulletin-board/board/board.go:184-194 | once Seal succeeded nothing is appended any more, across restarts |
| `BoardHistory.SealedExactly` | bulletin-board/board/board.go:40-60 | at every moment of every run the stored flag is set iff an earlier seal reached the database, and the board is sealed iff an earlier seal succeeded or one that reached the database was followed by a restart |
| `BoardHistory.AppendAnswer` | bulletin-board/board/board.go:72-129 | at every moment of every single-writer run, which of the answers an append gets: sealed, invalid proofs, duplicate, store failure, or the next position with the new head, each iff |
| `BoardHistory.UnsealedAccepts` | bulletin-board/board/board.go:40-60 | a board that was never sealed appends a valid new ballot after any restart |
| `BoardProofs.GetBallotVerifies` | bulletin-board/board/board.go:142-164 | at every moment of every single-writer run, a row read then or earlier gets a proof, size and root that VerifyInclusion accepts at position - 1 iff no reply has been lost up to that position since the last restart, or a leaf or node hash collides (only the "only if" needs that) |
| `BoardProofs.HeadsConsistent` | bulletin-board/board/board.go:40-129 | the heads at any two moments of a single-writer run are joined by an accepted consistency proof iff no restart lies between them or no reply had been lost, at the first, up to its size, or a leaf or node hash collides (only the "only if" needs that) |
| `BoardProofs.ForkedHeads` | bulletin-board/board/board.go:40-60 | a run of two appends and a restart whose heads before and after the restart no proof joins, unless two hashes collide |
| `BoardProofs.ProofPinsRow` | bulletin-board/board/board.go:208-218 | a ballot that verifies against the head is the stored row at that position, or a leaf or node hash collides |
| `BoardClient.FetchAllBallots` | tally/bbclient.go:95-114 | the loop follows the cursors and concatenates the pages |
| `BoardClient.FetchOutcome` | tally/bbclient.go:93-114 | a fetch ends at the first failed read or at the first page without a cursor, whichever is read first |
| `BoardClient.PageOfDense` | bulletin-board/api/handlers_public.go:13-44 | a page is the next limit rows, with a cursor exactly when it is full |
| `BoardClient.PageLimits` | bulletin-board/api/handlers_public.go:13-36 | the limits 100 and 1000, and the refusal of a cursor that does not decode |
| `BoardClient.FetchIsLastRead` | tally/bbclient.go:93-114 | whatever is appended between page reads, the result is the board at the last read, in order, nothing twice |
| `BoardClient.SealedFetchEnds` | bulletin-board/api/handlers_public.go:31-36 | on a sealed board the fetch ends after size/limit + 1 pages with every row, exact multiples included |
| `BoardClient.FetchDuringRun` | tally/bbclient.go:93-114 | the same for page reads at any moments of any single-writer run of the board |
| `VoterMap.VerifyHashChain` | collection/audit/audit.go:189-199 | accepts exactly the chains whose every row hash covers the previous one |
| `VoterMap.MemoryStore.Record` | collection/votermap/votermap.go:102-133 | appends one numbered, linked entry, replaces the active ballot, returns the one before |
| `VoterMap.MemoryStore.ActiveSet` | collection/votermap/votermap.go:178-186 | one id per voter, the active one, whatever the iteration order |
| `VoterMap.MemoryStore.GetAllOverrideChains` | collection/votermap/votermap.go:149-166 | each voter with two or more submissions once, until the callback fails, which only the last call can |
| `VoterMapSafety.OverridesExactly` | collection/votermap/votermap.go:102-166 | after any run, the chains it may emit are exactly those of voters with two or more submissions: all of them in order, numbered and linked |
| `VoterMap.GroupRows` | collection/store/postgres.go:301-324 | the loop emits the groups of its rows in order, until the callback fails, which only the last call can |
| `VoterMapSafety.RunTracks` | collection/votermap/votermap.go:102-133 | after any run of Record each history is that voter's submissions in order, numbered 1..n and linked, and the mapping holds the last of them, with channel and time |
| `VoterMapSafety.ChainsPassAudit` | collection/audit/audit.go:73-99 | the audit never fails on the store's own chains, and names each voter's active ballot |
| `VoterMapSafety.RowDataInjective` | collection/votermap/votermap.go:70-77 | the NUL framing is injective for arbitrary ballot ids |
| `VoterMapSafety.DecimalReads` | collection/votermap/votermap.go:70-77 | the sequence number is written in decimal: reading it back gives the number |
| `VoterMapSafety.LastHashBinds` | collection/audit/audit.go:189-199 | two audited chains with one last row hash have the same voter, ballots and numbers, or the MAC collides |
| `VoterMapSafety.StoredHashPinsHistory` | collection/votermap/votermap.go:117-130 | an audited chain that ends in the stored last row hash lists exactly the recorded submissions |
| `VoterMapSafety.AuditAccepts` | collection/audit/audit.go:189-199 | a chain passes and ends in the row hash of a stored row iff it is the stored chain up to that row, with any channels and times, or the MAC collides |
| `VoterMapSafety.AuditBlindSpots` | collection/audit/audit.go:189-199 | an audited chain that ends in a stored row hash is the voter's record, up to channels and times, iff it has as many rows, or the MAC collides |
| `VoterMapSafety.GroupingRecovers` | collection/store/postgres.go:301-324 | grouping recovers the chains behind the rows if and only if no voter hash is empty |
| `ActiveSet.CountedAreLastSubmissions` | tally/handler.go:227-240 | a board ballot is counted exactly when it is some voter's last submission |
| `ActiveSet.ActiveBallotsExact` | tally/handler.go:227-240 | the filter keeps each listed ballot, in board order and with repetitions; with no list it keeps all |
| `ActiveSet.OneBallotPerVoter` | tally/handler.go:227-240 | with unique board ids and distinct active ballots that are all on the board, one ballot per voter is counted |

## Left out

- MerkleTree.Tree.Append: leaf counts are unbounded naturals; no operation of the source overflows below 2^64 leaves.
- MerkleVerify.VerifyInclusionWeb: the element-length check and the copying of caller-owned arrays are not modelled; hashes are values.
- Bsgs.BabyStepGiantStep: max is at most 3037000499 squared; beyond it `step*step` leaves a Go int before it reaches max (`StepFits`) and the first loop need not end. All callers pass at most MaxDecrypt.
- Sigma.BinarySound: soundness starts from a fork; the forking argument about a hash as a random function is a probability statement and is not modelled.
- CeremonyResults.ResultsFromForks: starts from second answers to the same commitments, for the same reason.
- ActiveSet.OneBallotPerVoter: that every active ballot reaches the board is a hypothesis; the collection server records a submission before it forwards it.
- BoardSafety.RunAgreement: the database returns stored bytes unchanged; the real column type may re-serialise JSON. `New` failing on a read error is not modelled.
- BoardSafety.EncodeLeafInjective: fields of 2^32 bytes and more, whose length the source truncates, are excluded; so they are in `Framing` and `Transcripts`.
- BoardProofs.GetBallotVerifies: its "only if", and that of `HeadsConsistent`, are for tables without such fields.
- VoterMapSafety.LastHashBinds: the MAC is an arbitrary function to non-empty texts without NUL; voter hashes are assumed free of NUL, as hex is.
- SHA-256, SHA-512, HMAC, UTF-8, point encoding and ristretto255 themselves: functions of which at most injectivity or the output length is assumed (`Transcripts.IsCodec`, `MerkleHash.IsDigest`, `VoterMap.IsMac`), and a group of prime order q > 2^33 written as the residues modulo q. The reduction of a digest to a challenge is part of the arbitrary hash function.
- Nil struct fields and undecodable points inside the cryptographic packages, except where a wire format or a list can carry them.
- Randomness: the provers' and dealers' random values are parameters, so every statement holds for all of them. `BinaryHides` and its siblings are the algebra of honest-verifier zero knowledge; distributions of coins, and the computational hiding of ElGamal, are not modelled.
- `EncodeBallotWithCandidates`: it encodes like `EncodeBallot`, slot by slot.
- HTTP, JSON, identifiers, clocks, status pages and logging.
- The crash journal and recovery of the ceremony: the tally is not journalled, so only one process is modelled.
- `SignRoot`: it reads root and size under two locks, and no claim is made that they match.
- The Groth16 circuits and their Poseidon tree.
- The signed override report beyond its chain check: nonce, blinding, serialization and signature.
