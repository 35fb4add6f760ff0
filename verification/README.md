# Hyperlane agents: a verified model

A Dafny model of the parts of the Hyperlane agents that must not be wrong for a message to be proved
on another chain, with proofs about all inputs, all runs and all reachable states.

- **The Merkle accumulator.** One list of leaves, three representations: the full right-sparse tree
  (`MerkleTrees`, pushed in place in `BoxedTrees`), the 32-slot incremental tree (`Incremental`), and
  the spines that two proofs are merged through (`SparseTrees`). `MerkleTrees.Root` defines the root
  of a list without any tree; everything is proved to agree with it. `MerkleProofs` has proofs and
  what they bind, `Provers` the server of proofs against earlier roots.
- **The validator.** `Submitters` has the sequential code, `SubmitterRuns` the backfill and the tip
  task interleaved at every await over one store. Only genuine checkpoints are ever signed, and
  `SubmitterProgress` shows that the backfill and every round of the tip task get done.
- **The relayer's quorum.** `Quorums` fetches a checkpoint with a quorum at one index, `QuorumSearch`
  looks for the highest such index. `EndToEnd` puts the parts together: a caught-up sync loop serves
  the backfill all its leaves, and with fewer dishonest places in the validator list than the
  threshold, every proof the relayer builds evaluates to the root the quorum signed.
- **The sync cursors.** `SyncCursors` says what each step does, `SyncSteps` what it comes to in terms of
  the database, the readings and the logs alone, `SyncObjects` has the objects that do it in place, `SyncRuns` proves whole runs complete and finite, `RateLimited` adds the persisted
  watermark with crashes and restarts, `SharedWatermarks` two cursors that share one.
- **Hex.** `HexCodec` prints and parses byte strings.

Conventions:

- The hash is a parameter: everything holds for any function of two words. Where binding is needed,
  the hypothesis is that no two of the pairs *actually hashed* collide (`Hashing.CollisionFree`), not
  that the function is injective, which no 256-bit hash is.
- The tree depth is a parameter. Where every u32 needs a leaf, 2^depth = 2^32 is required, that is
  depth 32 (`Hashing.DepthOfU32`).
- Code that changes fields is a class whose methods are tied to functions; what is promised is proved
  about those functions, step by step and over whole runs. The lemmas named `...Exactly` say what such
  a function comes to without it, in both directions. Panics of the program (an unwrap, an
  assertion, an index) are preconditions, or proved not to happen.
- Awaits that can fail or repeat are parameters: answers of the database, readings of count and tip,
  which reads of the cursors fail, and where a failure strikes. A sleep changes nothing.

Where the code and what is written about it differ, the model follows the code:

- The latest index is said to be updated if necessary; an absent index counts as 0 and only a larger
  one is written, so index 0 is never recorded in an empty store (`Checkpoints.LatestIsMaximum`).
- The backward cursor calls itself done when it hits block zero. It has not asked for block zero then,
  so a log there can be missed: exactly the logs of block zero other than the chain's last log
  (`SyncRuns.MissedExactlyInBlockZero`). If the indexer drops logs, every log but the last can be
  (`SyncRuns.DroppedLogCanBeMissedForGood`).
- The watermark is said to be conservative enough to be shared by cursors that run sufficiently in
  sync. It is if and only if none is ahead of another by more blocks than the chunk size
  (`SharedWatermarks.SharedWriteIsSafeExactly`). A turn takes a cursor one block further than that, so
  to be one turn ahead is already too much (`SharedWatermarks.FirstTurnLosesALog`).
- The number of signatures of a multisig checkpoint is said to be the threshold; for threshold 0 it
  is one (`Quorums.Needed`).
- The launch of the two submitters is commented out in validator.rs; the code it would launch is what
  is modelled.

## Model

| member | source | states |
|---|---|---|
| `Hashing.DepthOfU32` | hyperlane-monorepo/rust/hyperlane-core/src/accumulator/zero_hashes.rs:4 | depth 32 is exactly the depth at which there is a leaf for every u32 |
| `MerkleTrees.RootOfZeros` | hyperlane-monorepo/rust/hyperlane-core/src/accumulator/mod.rs:38-45 | a block without leaves has the zero hash of its depth as root |
| `MerkleTrees.CreateHasRoot` | hyperlane-monorepo/rust/hyperlane-core/src/accumulator/merkle.rs:157-185 | the tree created from up to 2^depth leaves has the root of the perfect zero-padded tree, a definition that mentions no tree, and every node stores the hash of its children |
| `MerkleTrees.ZeroPaddingKeepsRoot` | hyperlane-monorepo/rust/hyperlane-core/src/accumulator/merkle.rs:330-337 | explicit zero leaves at the end do not change the root |
| `MerkleTrees.PushRefinesCreate` | hyperlane-monorepo/rust/hyperlane-core/src/accumulator/merkle.rs:189-237 | pushing onto the tree of L gives structurally the tree of L + [x]; it is rejected as full exactly at 2^depth leaves, the tree unchanged, and with no other error ever |
| `MerkleTrees.PushKeepsConsistency` | hyperlane-monorepo/rust/hyperlane-core/src/accumulator/merkle.rs:189-237 | on any hash-consistent tree, created or not, a push leaves a hash-consistent tree |
| `BoxedTrees.BoxedTree.constructor` | hyperlane-monorepo/rust/hyperlane-core/src/accumulator/merkle.rs:157-185 | boxing a tree value |
| `BoxedTrees.BoxedTree.Push` | hyperlane-monorepo/rust/hyperlane-core/src/accumulator/merkle.rs:189-237 | the in-place recursion over boxed nodes leaves exactly the tree and the outcome of the specification, errors included |
| `BoxedTrees.BoxedTree.PushChildren` | hyperlane-monorepo/rust/hyperlane-core/src/accumulator/merkle.rs:204-231 | the case analysis over the two children, in place |
| `MerkleProofs.GenerateProof` | hyperlane-monorepo/rust/hyperlane-core/src/accumulator/merkle.rs:256-283 | the loop that tests single bits of the index returns the leaf and, bottom-up, the sibling hashes of the walk to that leaf; if the walk reaches a leaf, no unwrap and neither assertion fails |
| `MerkleProofs.MerkleRootFromBranch` | hyperlane-monorepo/rust/hyperlane-core/src/accumulator/merkle.rs:307-322 | the loop folds a branch to the root it implies |
| `MerkleProofs.VerifyMerkleProof` | hyperlane-monorepo/rust/hyperlane-core/src/accumulator/merkle.rs:292-304 | accepts exactly branches of the right length that fold to the root |
| `MerkleProofs.GeneratedProofEvaluates` | hyperlane-monorepo/rust/hyperlane-core/src/accumulator/merkle.rs:252-283 | on any hash-consistent tree, whatever was generated folds back to the hash of the tree |
| `MerkleProofs.CreatedProves` | hyperlane-monorepo/rust/hyperlane-core/src/accumulator/merkle.rs:256-283 | the walk in a created tree never falls off and yields the leaf (or zero) and the roots of the sibling blocks, computed from the leaves alone |
| `MerkleProofs.CreatedReachesLeaf` | hyperlane-monorepo/rust/hyperlane-core/src/accumulator/merkle.rs:276-277 | in a created tree the walk to an index below the number of leaves ends at a leaf, as asserted |
| `MerkleProofs.SiblingsEvaluate` | hyperlane-monorepo/rust/hyperlane-core/src/accumulator/merkle.rs:307-322 | a leaf with the roots of its sibling blocks folds to the root of the leaves |
| `MerkleProofs.ProofRoundTrip` | hyperlane-monorepo/rust/hyperlane-core/src/accumulator/merkle.rs:256-322 | for every index below the number of leaves, generate then evaluate: the leaf, and the hash of the tree |
| `MerkleProofs.BranchBinding` | hyperlane-monorepo/rust/hyperlane-core/src/accumulator/merkle.rs:307-322 | two branches of one index, length and root are equal, unless two of the pairs hashed on the way collide |
| `MerkleProofs.AcceptedProofIsGenerated` | hyperlane-monorepo/rust/hyperlane-core/src/accumulator/merkle.rs:292-304 | a proof accepted against the root of L at index i is the generated one: leaf L[i], same path (same proviso) |
| `MerkleProofs.RootBinding` | hyperlane-monorepo/rust/hyperlane-core/src/accumulator/merkle.rs:157-185 | equally many leaves with one root are the same leaves (same proviso) |
| `MerkleProofs.RootForgetsLength` | hyperlane-monorepo/rust/hyperlane-core/src/accumulator/merkle.rs:330-337 | without equal lengths this fails: L and L + [0] share a root |
| `SparseTrees.AsLatest` | hyperlane-monorepo/rust/hyperlane-core/src/accumulator/sparse.rs:10-27 | the loop that fills the modified path replaces exactly the right-hand siblings by zero hashes |
| `SparseTrees.AsLatestForgetsLaterLeaves` | hyperlane-monorepo/rust/hyperlane-core/src/accumulator/sparse.rs:10-27 | whatever was appended after leaf j, its as-latest proof is the one it had as the last leaf, and evaluates to the root of the first j + 1 leaves |
| `SparseTrees.SpineFromProof` | hyperlane-monorepo/rust/hyperlane-core/src/accumulator/sparse.rs:91-108 | the loop builds the spine of a proof |
| `SparseTrees.SpineIsProof` | hyperlane-monorepo/rust/hyperlane-core/src/accumulator/sparse.rs:91-108 | a spine is hash-consistent, hashes to what its proof evaluates to, and gives that proof back |
| `SparseTrees.Merge` | hyperlane-monorepo/rust/hyperlane-core/src/accumulator/sparse.rs:54-82 | merge never trips its assertion and keeps the root hash of self, for every hash-consistent self and any other tree |
| `SparseTrees.MergeKeepsConsistency` | hyperlane-monorepo/rust/hyperlane-core/src/accumulator/sparse.rs:54-82 | merging consistent trees gives a consistent tree |
| `SparseTrees.MergedSpinesProve` | hyperlane-monorepo/rust/hyperlane-core/src/accumulator/sparse.rs:123-129 | the merge of the two spines can be unwrapped at every level along the leaf index, ends at a leaf, and yields the proof of the smaller tree, for any hash function |
| `SparseTrees.ProveAgainstCurrent` | hyperlane-monorepo/rust/hyperlane-core/src/accumulator/sparse.rs:115-120 | the proof of the walk |
| `SparseTrees.ProveAgainstPrevious` | hyperlane-monorepo/rust/hyperlane-core/src/accumulator/sparse.rs:123-129 | equals, field by field, the current-root proof in the tree of the first rootIndex + 1 leaves |
| `SparseTrees.ProofAmongEvaluates` | hyperlane-monorepo/rust/hyperlane-core/src/accumulator/sparse.rs:171-186 | that proof evaluates to the earlier root |
| `Incremental.IncrementalMerkle.constructor` | hyperlane-monorepo/rust/hyperlane-core/src/accumulator/incremental.rs:19-28 | the empty tree represents no leaves |
| `Incremental.IncrementalMerkle.Ingest` | hyperlane-monorepo/rust/hyperlane-core/src/accumulator/incremental.rs:32-45 | appends one leaf to the leaves represented; the loop always leaves through its return |
| `Incremental.IncrementalMerkle.CurrentRoot` | hyperlane-monorepo/rust/hyperlane-core/src/accumulator/incremental.rs:48-62 | the root of the leaves represented |
| `Incremental.IncrementalMerkle.Index` | hyperlane-monorepo/rust/hyperlane-core/src/accumulator/incremental.rs:70-73 | one less than the number of leaves |
| `Incremental.IncrementalMerkle.Verify` | hyperlane-monorepo/rust/hyperlane-core/src/accumulator/incremental.rs:86-89 | accepts exactly the proofs that evaluate to the root of the leaves |
| `Incremental.RootByIngesting` | hyperlane-monorepo/rust/hyperlane-core/src/accumulator/incremental.rs:101-118 | for up to 2^32 - 1 leaves, ingesting one by one gives the hash of the full tree created from all of them |
| `Incremental.CarryStep` | hyperlane-monorepo/rust/hyperlane-core/src/accumulator/incremental.rs:37-44 | at each slot the carry either stops, and filling that slot restores the representation, or goes on with the block the slot holds |
| `Incremental.FoldStep` | hyperlane-monorepo/rust/hyperlane-core/src/accumulator/incremental.rs:52-59 | one level of the root computation: complete block on the left or zero block on the right |
| `Incremental.CarryEnds` | hyperlane-monorepo/rust/hyperlane-core/src/accumulator/incremental.rs:37-45 | no carry runs through all slots below 2^depth leaves |
| `Provers.Prover.constructor` | hyperlane-monorepo/rust/agents/apiserver/src/prover.rs:111-122 | a prover over given leaves has their tree and count |
| `Provers.Prover.Ingest` | hyperlane-monorepo/rust/agents/apiserver/src/prover.rs:62-66 | appends the leaf and returns the new root, or reports a full tree; the count grows in either case |
| `Provers.Prover.Extend` | hyperlane-monorepo/rust/agents/apiserver/src/prover.rs:133-140 | ingests all, in order |
| `Provers.Prover.CurrentRoot` | hyperlane-monorepo/rust/agents/apiserver/src/prover.rs:69-71 | the root of the leaves |
| `Provers.Prover.ProveAgainstPrevious` | hyperlane-monorepo/rust/agents/apiserver/src/prover.rs:80-96 | both errors exactly as checked, otherwise the proof of the smaller tree; this stays right after failed ingests have pushed the count past the leaves |
| `Provers.Prover.Verify` | hyperlane-monorepo/rust/agents/apiserver/src/prover.rs:100-108 | accepts exactly the proofs that evaluate to the current root |
| `Checkpoints.LatestIsMaximum` | hyperlane-monorepo/rust/hyperlane-base/src/traits/checkpoint_syncer.rs:16-22 | over any sequence of updates, each finished before the next: the latest index is the maximum of them and of what it was; it is absent exactly if it was and all updates were with 0 |
| `Checkpoints.CheckpointStorage.UpdateLatestIndex` | hyperlane-monorepo/rust/hyperlane-base/src/traits/checkpoint_syncer.rs:16-22 | reads the stored index and overwrites it if the new one is larger |
| `Checkpoints.CheckpointStorage.FetchCheckpoint` | hyperlane-monorepo/rust/hyperlane-base/src/traits/checkpoint_syncer.rs:24 | the checkpoint at an index, if any |
| `Checkpoints.CheckpointStorage.WriteCheckpoint` | hyperlane-monorepo/rust/hyperlane-base/src/traits/checkpoint_syncer.rs:26-29 | stores a checkpoint at its own index |
| `Checkpoints.CombinesExactly` | hyperlane-monorepo/rust/hyperlane-core/src/types/checkpoint.rs:80-99 | refused exactly if empty or if any two values differ; otherwise the one value with each signature at its place |
| `Submitters.ValidatorSubmitter.CurrentCheckpoint` | hyperlane-monorepo/rust/agents/validator/src/submit.rs:52-59 | the checkpoint with the configured hook and domain, the root of the tree's leaves, and the index of the last |
| `Submitters.ValidatorSubmitter.IngestUntil` | hyperlane-monorepo/rust/agents/validator/src/submit.rs:164-195 | ingests what the database serves until the target index, queueing one checkpoint per leaf |
| `Submitters.IngestedExactly` | hyperlane-monorepo/rust/agents/validator/src/submit.rs:170-196 | what is ingested are exactly the messages among the answers up to the end, in their order; it ends behind the last one needed, at the first database error, or where the answers end |
| `Submitters.ServedChainIsReached` | hyperlane-monorepo/rust/agents/validator/src/submit.rs:170-196 | served the chain's next leaves, with any waiting in between, the tree reaches the index and has exactly the chain's leaves |
| `Submitters.ServedChainIsSubmitted` | hyperlane-monorepo/rust/agents/validator/src/submit.rs:149-235 | and whatever genuine checkpoint it is to reach, it submits everything up to it, unless the signer or the store fails |
| `Submitters.ValidatorSubmitter.SubmitUntil` | hyperlane-monorepo/rust/agents/validator/src/submit.rs:149-235 | nothing is signed or published unless the tree equals the correctness checkpoint; then exactly the queue is; every way of failing leaves exactly what was done before it |
| `Submitters.ValidatorSubmitter.SignAndSubmit` | hyperlane-monorepo/rust/agents/validator/src/submit.rs:238-275 | stores the signed queue items that were missing, then updates the latest index |
| `Submitters.StoredExactly` | hyperlane-monorepo/rust/agents/validator/src/submit.rs:244-268 | the store keeps what it had and gains exactly the queued items at indices it lacked |
| `Submitters.StoredPrefix` | hyperlane-monorepo/rust/agents/validator/src/submit.rs:244-268 | the same for the part of a queue that a failure leaves |
| `Submitters.MatchingRootMeansGenuineLeaves` | hyperlane-monorepo/rust/agents/validator/src/submit.rs:206-217 | if a tree reaches the genuine checkpoint, all its leaves are the chain's, and so is everything queued on the way, unless two of the pairs hashed collide |
| `SubmitterRuns.LaunchInv` | hyperlane-monorepo/rust/agents/validator/src/validator.rs:182-208 | what the launch of the two tasks establishes |
| `SubmitterRuns.NextInv` | hyperlane-monorepo/rust/agents/validator/src/submit.rs:149-275 | every step of either task keeps the invariant, whatever the other does in between |
| `SubmitterRuns.OnlyGenuineCheckpointsAreSigned` | hyperlane-monorepo/rust/agents/validator/src/submit.rs:170-226 | over every run and interleaving, whatever the database serves: each checkpoint signed is the chain's at its index, with the chain's message |
| `SubmitterRuns.WritesAreDisjoint` | hyperlane-monorepo/rust/agents/validator/src/submit.rs:244-268 | over every run: the backfill writes only [0, n), the tip only [n, ...), each index at most once, nothing existing is overwritten |
| `SubmitterRuns.LatestIsBackedByTheStore` | hyperlane-monorepo/rust/agents/validator/src/submit.rs:270-272 | over every run: the latest index moves only to one up to which the moving task's range is stored; with both tasks at rest there is no gap |
| `SubmitterRuns.UninterruptedRound` | hyperlane-monorepo/rust/agents/validator/src/submit.rs:244-268 | left alone, the step machine stores what the sequential submitter stores |
| `SubmitterRuns.UninterruptedSubmission` | hyperlane-monorepo/rust/agents/validator/src/submit.rs:198-275 | left alone, a task's steps from the check on come to the outcome, the store and the latest index of the sequential submitter |
| `SubmitterRuns.ReadsIngest` | hyperlane-monorepo/rust/agents/validator/src/submit.rs:176-196 | and its reads ingest what the sequential submitter ingests, an error of the database ending the task |
| `SubmitterRuns.PublishLowersExactlyWhenOvertaken` | hyperlane-monorepo/rust/hyperlane-base/src/traits/checkpoint_syncer.rs:16-22 | publishing lowers the latest index exactly when the other task has overtaken it since the read |
| `SubmitterRuns.LatestCanGoBack` | hyperlane-monorepo/rust/hyperlane-base/src/traits/checkpoint_syncer.rs:16-22 | a run from launch in which the latest index goes from 2 to 1 |
| `SubmitterProgress.StepCounts` | hyperlane-monorepo/rust/agents/validator/src/submit.rs:149-275 | whatever either task does, a task on its round stays on its way, and either fewer steps are left or it is as it was |
| `SubmitterProgress.BackfillCompletes` | hyperlane-monorepo/rust/agents/validator/src/submit.rs:149-275 | over every interleaving in which nothing fails for the backfill and it is served the chain's leaves: it takes at most 3n + 3 effective steps; until it is done there is one it can take; then every index below n is stored |
| `SubmitterProgress.TipRoundCompletes` | hyperlane-monorepo/rust/agents/validator/src/submit.rs:108-146 | the tip task takes up any checkpoint of the chain not behind its tree, however far ahead; then, over every interleaving as above, its tree grows to it and every index from where it was is stored |
| `SubmitterProgress.TipSkipsWhatIsBehind` | hyperlane-monorepo/rust/agents/validator/src/submit.rs:126-133 | a checkpoint behind its tree changes nothing |
| `Quorums.TryCombine` | hyperlane-monorepo/rust/hyperlane-core/src/types/checkpoint.rs:80-99 | the first value if all agree, and all signatures in order; otherwise the error |
| `Quorums.FetchCheckpoint` | hyperlane-monorepo/rust/hyperlane-base/src/types/multisig.rs:142-220 | the loop over validators with its map of groups returns what the first deciding validator decides |
| `Quorums.ExaminedExactly` | hyperlane-monorepo/rust/hyperlane-base/src/types/multisig.rs:154-190 | a checkpoint counts exactly if the store of the validator's address has it at the index, it carries that index, and its signature recovers to the validator; one signed by someone else is skipped |
| `Quorums.AddressRoundTrip` | hyperlane-monorepo/rust/hyperlane-base/src/types/multisig.rs:155-183 | an address survives as a word, and a word is an address exactly if its upper bytes are zero |
| `Quorums.FetchedIsQuorum` | hyperlane-monorepo/rust/hyperlane-base/src/types/multisig.rs:142-220 | soundness: exactly the needed number of signatures, in list order, each of the validator at its place, all over one value at the index asked for |
| `Quorums.UndecidedExactly` | hyperlane-monorepo/rust/hyperlane-base/src/types/multisig.rs:154-217 | nothing is decided by the first validators exactly if nothing they stored is unrecoverable and no root has enough signers among them |
| `Quorums.RecoveryErrorExactly` | hyperlane-monorepo/rust/hyperlane-base/src/types/multisig.rs:175-176 | the fetch fails to recover exactly if some validator's checkpoint cannot be recovered while nothing is settled before it |
| `Quorums.NoQuorumExactly` | hyperlane-monorepo/rust/hyperlane-base/src/types/multisig.rs:213-217 | there is no quorum exactly if all can be recovered and no root has enough signers |
| `Quorums.FetchedExactly` | hyperlane-monorepo/rust/hyperlane-base/src/types/multisig.rs:192-205 | a quorum is fetched exactly if some validator completes the signers of a root and all they sign over it is one value; otherwise they are inconsistent |
| `Quorums.FetchFindsQuorum` | hyperlane-monorepo/rust/hyperlane-base/src/types/multisig.rs:142-220 | completeness: if all can be recovered and what is signed over a root is one value, a quorum is fetched if and only if some root has enough signers, whatever else the stores hold |
| `QuorumSearch.LatestIndices` | hyperlane-monorepo/rust/hyperlane-base/src/types/multisig.rs:29-76 | the latest indices in the stores of the listed addresses that have one, each address once, in some order |
| `QuorumSearch.ReportedExactly` | hyperlane-monorepo/rust/hyperlane-base/src/types/multisig.rs:40-62 | what is gathered is the latest index of exactly the listed validators whose stores have one |
| `QuorumSearch.OrderStatisticIsQuorumIndex` | hyperlane-monorepo/rust/hyperlane-base/src/types/multisig.rs:114-121 | the entry at threshold - 1 of the sorted indices is the largest that the stores of threshold listed addresses have reached |
| `QuorumSearch.QuorumIndexIsUnique` | hyperlane-monorepo/rust/hyperlane-base/src/types/multisig.rs:114-121 | there is at most one such index |
| `QuorumSearch.FetchCheckpointInRange` | hyperlane-monorepo/rust/hyperlane-base/src/types/multisig.rs:91-136 | returns the highest index in [minimum, min(maximum, quorum index)] at which a quorum is fetched, and nothing exactly if there is none |
| `EndToEnd.ProverAndValidatorAgree` | hyperlane-monorepo/rust/agents/apiserver/src/prover.rs:80-96 | the prover's proof of message i against index k evaluates to the root the validator queues at k |
| `EndToEnd.IncrementalAcceptsGenerated` | hyperlane-monorepo/rust/hyperlane-core/src/accumulator/incremental.rs:86-89 | the incremental tree accepts the proof the full tree of the same leaves generates |
| `EndToEnd.RunningValidatorIsHonest` | hyperlane-monorepo/rust/agents/validator/src/submit.rs:170-226 | a store that contributed only the chain's checkpoints still does after any run of the two submitters launched on it |
| `EndToEnd.SyncedBackfillCompletes` | hyperlane-monorepo/rust/agents/validator/src/validator.rs:159-208 | a sync loop that has caught up, with no leaf in block zero, serves the backfill all it needs, so that it gets done as above |
| `EndToEnd.FetchedQuorumIsGenuine` | hyperlane-monorepo/rust/hyperlane-base/src/types/multisig.rs:173-205 | with fewer dishonest places than the threshold, a fetched quorum is over the chain's checkpoint |
| `EndToEnd.RelayedProofMatchesQuorum` | hyperlane-monorepo/rust/agents/apiserver/src/prover.rs:80-96 | and every proof built for a message up to its index evaluates to the root the quorum signed |
| `SyncObjects.LogStore.RetrieveBySequence` | hyperlane-monorepo/rust/hyperlane-base/src/contract_sync/cursor.rs:133-135 | a log is found if it is stored and the read does not fail |
| `SyncObjects.LogStore.RetrieveLogBlockNumber` | hyperlane-monorepo/rust/hyperlane-base/src/contract_sync/cursor.rs:137-144 | its block, unless it is not recorded or the read fails |
| `SyncObjects.LogStore.Store` | hyperlane-monorepo/rust/hyperlane-base/src/db/rocks/hyperlane_db.rs:142-165 | stores what is not there yet, a log before its block, so that a failure can leave a log without its block; what is there already stays as it is, also without its block |
| `SyncObjects.SyncState.GetBlockRange` | hyperlane-monorepo/rust/hyperlane-base/src/contract_sync/cursor.rs:82-99 | the next block range, forward or backward, and the block moved to |
| `SyncObjects.SyncState.GetSequenceRange` | hyperlane-monorepo/rust/hyperlane-base/src/contract_sync/cursor.rs:109-129 | the next sequence range |
| `SyncObjects.SyncState.GetRange` | hyperlane-monorepo/rust/hyperlane-base/src/contract_sync/cursor.rs:55-80 | the range of the mode; nothing for an empty one |
| `SyncObjects.SyncState.UpdateFrom` | hyperlane-monorepo/rust/hyperlane-base/src/contract_sync/cursor.rs:146-167 | rewinds exactly if there are relevant logs without the one looked for: to the block of the previous one, if it is known and can be read, or else to the start |
| `SyncObjects.SyncState.Filter` | hyperlane-monorepo/rust/hyperlane-base/src/contract_sync/cursor.rs:278-281 | drops the logs the cursor has passed, and only those |
| `SyncObjects.ForwardCursor.NextForwardRange` | hyperlane-monorepo/rust/hyperlane-base/src/contract_sync/cursor.rs:201-251 | fast-forward over what can be read, with or without its block, and the comparison with the count, as the step function says |
| `SyncObjects.ForwardCursor.UpdateForward` | hyperlane-monorepo/rust/hyperlane-base/src/contract_sync/cursor.rs:274-283 | as the step function says |
| `SyncObjects.BackwardCursor.NextBackwardRange` | hyperlane-monorepo/rust/hyperlane-base/src/contract_sync/cursor.rs:321-358 | the rewind loop over what can be read, with or without its block, and the query, as the step function says |
| `SyncObjects.BackwardCursor.UpdateBackward` | hyperlane-monorepo/rust/hyperlane-base/src/contract_sync/cursor.rs:363-372 | as the step function says |
| `SyncObjects.ForwardBackwardCursor.constructor` | hyperlane-monorepo/rust/hyperlane-base/src/contract_sync/cursor.rs:390-424 | the cursors created from a first reading |
| `SyncObjects.ForwardBackwardCursor.Next` | hyperlane-monorepo/rust/hyperlane-base/src/contract_sync/cursor.rs:429-444 | forward before backward |
| `SyncObjects.ForwardBackwardCursor.UpdateLogs` | hyperlane-monorepo/rust/hyperlane-base/src/contract_sync/cursor.rs:450-455 | the cursor that asked digests the logs |
| `SyncObjects.SyncLogs` | hyperlane-monorepo/rust/hyperlane-base/src/contract_sync/mod.rs:45-91 | the loop (act, fetch, store, update), with failures of the fetch and within the store, is the run of the step functions |
| `SyncSteps.FastForwardExactly` | hyperlane-monorepo/rust/hyperlane-base/src/contract_sync/cursor.rs:204-224 | fast-forward stops at the first sequence not stored, at the block of the last one passed whose block is known, or else where it was |
| `SyncSteps.FastRewindExactly` | hyperlane-monorepo/rust/hyperlane-base/src/contract_sync/cursor.rs:324-350 | the rewind loop stops at the first sequence not stored, or is done at a stored one, at sequence zero or block zero; its block is that of the lowest one passed whose block is known |
| `SyncSteps.PassesAboveBlockZero` | hyperlane-monorepo/rust/hyperlane-base/src/contract_sync/cursor.rs:333-337 | and it passes a sequence only if it is not at block zero then |
| `SyncSteps.ForwardAsksExactly` | hyperlane-monorepo/rust/hyperlane-base/src/contract_sync/cursor.rs:226-250 | for every reading: when the forward cursor asks, for which range, and where it goes otherwise; at the count it goes to the tip |
| `SyncSteps.NextQueryStartsAtTheTip` | hyperlane-monorepo/rust/hyperlane-base/src/contract_sync/cursor.rs:229-236 | once everything up to a count is found, the next block query starts at the tip read with it |
| `SyncSteps.BackwardAsksExactly` | hyperlane-monorepo/rust/hyperlane-base/src/contract_sync/cursor.rs:351-358 | for every reading: when the backward cursor asks, for which range, and when it fails |
| `SyncSteps.ForwardComesFirst` | hyperlane-monorepo/rust/hyperlane-base/src/contract_sync/cursor.rs:429-444 | the backward cursor has its turn exactly if the forward cursor has nothing to ask |
| `SyncSteps.ForwardRewindsExactly` | hyperlane-monorepo/rust/hyperlane-base/src/contract_sync/cursor.rs:274-283 | a forward cursor goes back exactly if the logs have something later but not what it looks for: to the block of the sequence before, if known, or to the start |
| `SyncSteps.BackwardRewindsExactly` | hyperlane-monorepo/rust/hyperlane-base/src/contract_sync/cursor.rs:363-372 | a backward cursor likewise, with what is earlier and the sequence after |
| `SyncSteps.SetOut` | hyperlane-monorepo/rust/hyperlane-base/src/contract_sync/cursor.rs:390-424 | the first queries of new cursors start, or end, at the tip read first |
| `SyncSteps.StoredBlock` | hyperlane-monorepo/rust/hyperlane-base/src/db/rocks/hyperlane_db.rs:142-165 | a log that was not there, or could not be looked up, is stored with its block; every other entry stays as it was |
| `SyncSteps.PartBlock` | hyperlane-monorepo/rust/hyperlane-base/src/db/rocks/hyperlane_db.rs:142-165 | after a failure, all before it are stored so, and of the log itself at most the log without its block |
| `SyncRuns.FetchedExactly` | hyperlane-monorepo/rust/hyperlane-base/src/contract_sync/cursor.rs:54-130 | an indexer's answer holds exactly the logs of the range that are not dropped |
| `SyncRuns.QueriesAreBounded` | hyperlane-monorepo/rust/hyperlane-base/src/contract_sync/cursor.rs:82-129 | over every run whatsoever, no query is for more than the chunk size and one block, or 101 sequences |
| `SyncRuns.StopsExactly` | hyperlane-monorepo/rust/hyperlane-base/src/contract_sync/mod.rs:61-91 | only a fetch or a store that fails ends the loop; an error of a cursor does not |
| `SyncRuns.UpdateSeesTheBatch` | hyperlane-monorepo/rust/hyperlane-base/src/contract_sync/mod.rs:70-84 | the update comes after the store: a rewind goes to the block that the same batch has brought |
| `SyncRuns.RunRecords` | hyperlane-monorepo/rust/hyperlane-base/src/db/rocks/hyperlane_db.rs:142-165 | over every run, if no one else stores logs without their block: every log stored has its block, except at most one, at which the store failed |
| `SyncRuns.RunProgress` | hyperlane-monorepo/rust/hyperlane-base/src/contract_sync/cursor.rs:201-251 | over every run, also with dropped logs in block mode, failing reads and logs without a block: neither cursor passes a sequence that is not stored; and however the loop ends, only the chain's logs are stored |
| `SyncRuns.RunSeeks` | hyperlane-monorepo/rust/hyperlane-base/src/contract_sync/cursor.rs:201-444 | over every honest run, with failing reads and logs without a block: everything in the blocks that either cursor has scanned past is stored |
| `SyncRuns.CaughtUpMeansComplete` | hyperlane-monorepo/rust/hyperlane-base/src/contract_sync/cursor.rs:390-444 | over every honest run, in both modes: backward done and forward at a count means that every sequence below it is stored, except that logs of block zero can be missing |
| `SyncRuns.MissedExactlyInBlockZero` | hyperlane-monorepo/rust/hyperlane-base/src/contract_sync/cursor.rs:333-337 | the exact condition: on every chain, some honest run ends caught up without sequence k if and only if k is in block zero and not the last of the chain |
| `SyncRuns.FoundSequenceZeroMeansComplete` | hyperlane-monorepo/rust/hyperlane-base/src/contract_sync/cursor.rs:333-337 | over every run, also with dropped logs in block mode: if the backward cursor is done at sequence zero, not at block zero, then nothing that either cursor has passed is missing, block zero included |
| `SyncRuns.DroppedLogCanBeMissedForGood` | hyperlane-monorepo/rust/hyperlane-base/src/contract_sync/cursor.rs:333-337 | on every chain, with an indexer that drops logs in block mode, some run ends caught up without sequence k if and only if k is not the last of the chain |
| `SyncRuns.RewindIsSafe` | hyperlane-monorepo/rust/hyperlane-base/src/contract_sync/cursor.rs:146-167 | a rewind goes back to at most (forward) or at least (backward) the block of the sequence looked for, whether or not the block of the previous one is known |
| `SyncRuns.RelevantBatchIsNotPassed` | hyperlane-monorepo/rust/hyperlane-base/src/contract_sync/cursor.rs:274-372 | whatever was dropped, a batch with anything relevant leaves the sequence looked for stored or not passed |
| `SyncRuns.ForwardTurnDecreases` | hyperlane-monorepo/rust/hyperlane-base/src/contract_sync/cursor.rs:204-224 | each turn of a catch-up run decreases the measure, though fast-forward may move the block back |
| `SyncRuns.BackwardTurnDecreases` | hyperlane-monorepo/rust/hyperlane-base/src/contract_sync/cursor.rs:324-350 | the same for the backward cursor |
| `SyncRuns.CatchUpEnds` | hyperlane-monorepo/rust/hyperlane-base/src/contract_sync/cursor.rs:82-99 | from any state of an honest run, at a fixed tip, finitely many turns bring both cursors to their ends with everything stored (block zero excepted) |
| `RateLimited.RateLimitedCursor.constructor` | hyperlane-monorepo/rust/hyperlane-base/src/contract_sync/mod.rs:102-123 | restarts from the watermark, or the configured block |
| `RateLimited.RateLimitedCursor.GetRateLimit` | hyperlane-monorepo/rust/hyperlane-base/src/contract_sync/cursor.rs:502-529 | waits, fails or refreshes the tip |
| `RateLimited.RateLimitedCursor.Next` | hyperlane-monorepo/rust/hyperlane-base/src/contract_sync/cursor.rs:563-586 | the next action, as the step function says |
| `RateLimited.RateLimitedCursor.UpdateWatermark` | hyperlane-monorepo/rust/hyperlane-base/src/contract_sync/cursor.rs:592-604 | stores the watermark one chunk behind, but not before the start |
| `RateLimited.ActsExactly` | hyperlane-monorepo/rust/hyperlane-base/src/contract_sync/cursor.rs:502-586 | for every state and reading: the cursor waits near the tip until the tip may be refreshed, with nothing moved; otherwise it asks for the next chunk, up to the tip it reads, if there is anything |
| `RateLimited.LaunchedAsksFirst` | hyperlane-monorepo/rust/hyperlane-base/src/contract_sync/cursor.rs:468-500 | a new cursor asks for the blocks from where it was launched, or in sequence mode with a count for the first sequences, as soon as it may |
| `RateLimited.WatermarkIsOneChunkBehind` | hyperlane-monorepo/rust/hyperlane-base/src/contract_sync/cursor.rs:592-604 | the watermark is one chunk behind, or the start while there is less than that |
| `RateLimited.EventKeepsInv` | hyperlane-monorepo/rust/hyperlane-base/src/contract_sync/cursor.rs:563-604 | every turn, cut off anywhere, and every launch keeps the invariant, and never lowers where a launch would start |
| `RateLimited.RestartLosesNothing` | hyperlane-monorepo/rust/hyperlane-base/src/contract_sync/mod.rs:102-123 | over every run with crashes, restarts and receding tips: a log from the configured start on that is not stored lies at or above where a launch would scan |
| `RateLimited.RestartsNeverGoBack` | hyperlane-monorepo/rust/hyperlane-base/src/contract_sync/cursor.rs:592-604 | launches never start earlier than before |
| `SharedWatermarks.SharedRestartLosesNothing` | hyperlane-monorepo/rust/hyperlane-base/src/contract_sync/mod.rs:102-123 | over every run of two cursors that share a watermark, with crashes and restarts: if neither is ever ahead by more blocks than its chunk size, a log of either that is not stored lies at or above where a launch would scan |
| `SharedWatermarks.SharedWriteIsSafeExactly` | hyperlane-monorepo/rust/hyperlane-base/src/contract_sync/cursor.rs:592-604 | the exact lag: a watermark written by one cursor passes nothing the other can still miss, whatever its logs, if and only if the one is ahead by no more blocks than its chunk size |
| `SharedWatermarks.FirstTurnLosesALog` | hyperlane-monorepo/rust/hyperlane-base/src/contract_sync/cursor.rs:592-604 | a run in which one cursor has had a turn, the other none, and a restart loses a log of the other |
| `HexCodec.ToHexRaw` | hyperlane-monorepo/rust/hyperlane-core/src/types/serialize.rs:42-68 | prints into the front of the buffer and touches nothing behind |
| `HexCodec.FromHexRaw` | hyperlane-monorepo/rust/hyperlane-core/src/types/serialize.rs:115-149 | parses the bytes of a text into the front of the slice, or reports the byte that is no digit and its index |
| `HexCodec.DigitTable` | hyperlane-monorepo/rust/hyperlane-core/src/types/serialize.rs:15 | digits are printed in lower case and read in either |
| `HexCodec.NoOtherDigits` | hyperlane-monorepo/rust/hyperlane-core/src/types/serialize.rs:123-140 | nothing else is a digit, and there are four blanks |
| `HexCodec.ParsesExactly` | hyperlane-monorepo/rust/hyperlane-core/src/types/serialize.rs:115-149 | any text: the bytes of its digits in pairs, behind a zero if its length is odd, blanks left out; or the first byte that is neither, with its index |
| `HexCodec.PrefixIsOptional` | hyperlane-monorepo/rust/hyperlane-core/src/types/serialize.rs:269-302 | the prefix is optional, does not count towards the length and counts towards the index; every length but the expected ones is refused |
| `HexCodec.RawRoundTrip` | hyperlane-monorepo/rust/hyperlane-core/src/types/serialize.rs:152-161 | parsing what is printed raw gives the bytes, and the exact length is accepted |
| `HexCodec.UintRoundTrip` | hyperlane-monorepo/rust/hyperlane-core/src/types/serialize.rs:175-186 | parsing what is printed as a number gives the bytes without leading zeros (one zero byte for zero), the same value, and the length is accepted |
| `HexCodec.NoLeadingZero` | hyperlane-monorepo/rust/hyperlane-core/src/types/serialize.rs:175-186 | a number is printed without a leading zero, unless it is zero |

## Left out

- Keccak, the bytes of the zero hashes, and signing: the hash, the signer and recovery are functions passed in; recovery may fail.
- RPC, storage engines, the async runtime, metrics, sleeping and ETA: their answers and failures are parameters, the rest has no effect on the state.
- Overflow of u32 block numbers and sequences in the cursors: numbers are unbounded, as heights near 2^32 would be needed to see it. The leaf counts of the accumulator do respect u32.
- Loops without an end: `SubmitterRuns`, `SyncRuns` and `RateLimited` prove every finite run instead; `SyncObjects.SyncLogs` takes the environment of as many turns as are looked at.
- Other writers of the cursors' database: they store only logs of the chain, with or without a block. What they store in the middle of a turn is modelled as stored before it and missed by the reads before.
- The order within a batch: logs are stored in the chain's order, the program's is arbitrary. It shows only in what a failing store leaves, and `SyncRuns.RunProgress` allows any part of the chain's logs at a launch.
- CaughtUpMeansComplete: says nothing about logs of block zero, because the code can miss them (`SyncRuns.MissedExactlyInBlockZero`); in which runs it does depends on how the chunks fall.
- RunProgress: with an indexer that drops logs only for block mode, because in sequence mode the cursors move past a range before anything of it is stored.
- RelevantBatchIsNotPassed: recovery from dropped logs is claimed only for batches that bring something relevant, because a log whose batch brings nothing can be missed (`SyncRuns.DroppedLogCanBeMissedForGood`).
- BackfillCompletes: does not say that the scheduler takes the steps there are; nor does TipRoundCompletes, of one round of the tip task, which never ends.
- RestartLosesNothing: one cursor per watermark; for two that share one see `SharedWatermarks.SharedRestartLosesNothing`, which assumes that they are launched and go down together.
- LatestIndices: an error of a validator's store is the same as nothing found, in the gathering of indices as in the fetching of checkpoints.
- FetchCheckpointInRange: the stores do not change during the search.
- SortDescending: stands for the sort of the standard library, of which only the result matters.
- ProveAgainstPrevious: takes the leaves of its tree as a ghost argument; it is stated for trees that were created or pushed, not for arbitrary ones.
- LatestIsBackedByTheStore: does not say that the latest index never goes down, because it can (`SubmitterRuns.LatestCanGoBack`).
- SubmitUntil: the database may serve anything, but the target is a checkpoint of the chain; reorganisations below the reorg period are not modelled.
- Encoding of proofs and messages, fallback providers, the relayer's copy of the prover, chain adapters, settings and the servers: straightforward, or not visible from here.
