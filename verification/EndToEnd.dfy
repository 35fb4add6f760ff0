/** From the chain's leaves, through validators and the relayer, to a proof that verifies. */
module EndToEnd {
  import opened Bits
  import opened Hashing
  import opened MerkleTrees
  import opened MerkleProofs
  import opened SparseTrees
  import opened Checkpoints
  import opened Submitters
  import opened SubmitterRuns
  import opened SubmitterProgress
  import opened Quorums
  import SyncCursors
  import SyncRuns

  /** The proof a prover over `leaves` gives for message `i` against index `k` evaluates to the root
      that a validator queues at index `k`, though it comes from another tree. */
  lemma ProverAndValidatorAgree(s: Setup, leaves: seq<H256>, i: nat, k: nat)
    requires i <= k < |leaves| <= Pow2(s.depth)
    ensures var proof := ProofAmong(s.hash, leaves[..k + 1], i, s.depth);
            && proof.leaf == leaves[i] == QueuedAt(s, leaves, i).messageId
            && BranchRoot(s.hash, proof.leaf, PathOf(proof.path), Low(proof.index, s.depth))
               == QueuedAt(s, leaves, k).checkpoint.root
  {
    ProofAmongEvaluates(s.hash, leaves, i, k, s.depth);
  }

  /** The incremental tree of the same leaves accepts the proof the full tree generates: this is the
      condition its `Verify` decides. */
  lemma IncrementalAcceptsGenerated(h: HashFn, leaves: seq<H256>, index: nat, depth: nat)
    requires index < |leaves| <= Pow2(depth)
    ensures var t := Create(h, leaves, depth);
            && Reaches(t, index, depth)
            && var proof := Proof(WalkLeaf(h, t, index, depth), index, WalkPath(h, t, index, depth).Hashes());
               proof.leaf == leaves[index]
               && BranchRoot(h, proof.leaf, PathOf(proof.path), Low(proof.index, depth)) == Root(h, leaves, 0, depth)
  {
    ProofRoundTrip(h, leaves, index, depth);
    SmallNumber(index, depth);
    PathOfHashes(WalkPath(h, Create(h, leaves, depth), index, depth));
  }

  /** Whatever this validator's store has signed by it is the chain's. */
  ghost predicate HonestStore(s: Setup, chain: seq<H256>, net: Network, validator: H256) {
    forall index: nat, signed :: Signs(net, validator, index, signed) ==>
      index < |chain| && signed.value == QueuedAt(s, chain, index)
  }

  /** A validator whose store is what a run of its two submitters left is honest, if what the store had
      before was; so it stays honest over any number of launches. */
  lemma RunningValidatorIsHonest(
    s: Setup, w: World, actions: seq<Action>, pairs: set<Pair>, net: Network, validator: H256
  )
    requires GoodWorld(s, w) && GoodRun(s, w, actions, pairs)
    requires forall k :: k in w.store ==> k < |w.chain| && w.store[k].value == QueuedAt(s, w.chain, k)
    requires ToAddress(validator) in net.syncers
    requires net.syncers[ToAddress(validator)].checkpoints
             == Run(s, Launch(s, w.chain, w.n, w.store, w.latest), actions).store
    ensures HonestStore(s, w.chain, net, validator)
  {
    forall index: nat, signed | Signs(net, validator, index, signed)
      ensures index < |w.chain| && signed.value == QueuedAt(s, w.chain, index)
    {
      OnlyGenuineCheckpointsAreSigned(s, w, actions, pairs, index);
      WritesAreDisjoint(s, w, actions, pairs);
    }
  }

  // ----- From the sync loop to the validator -----

  /** What the database of the sync loop answers when leaf `index` is asked for. */
  function Answer(db: SyncCursors.Db, chain: seq<H256>, index: nat): DbRead {
    if index in db && index < |chain| then Found(chain[index]) else NotYet
  }

  /** Nothing fails for the backfill, and its reads are answered from the database. */
  ghost predicate AnsweredFrom(db: SyncCursors.Db, chain: seq<H256>, t: Task, action: Action) {
    Actor(action).Backfill? ==> !action.Fail? && (action.Read? ==> action.answer == Answer(db, chain, |t.leaves|))
  }

  /** A sync loop that has caught up serves the backfill all its leaves: at every point of every
      interleaving the backfill is done, or has a next step that the database answers and that moves it
      on; it is moved on at most 3n + 3 times; and once it is done, every index below n is stored. No leaf
      may be in block zero, which the sync loop can miss. */
  lemma SyncedBackfillCompletes(
    s: Setup, w: World, actions: seq<Action>, sync: SyncRuns.World, db: SyncCursors.Db, envs: seq<SyncRuns.Env>
  )
    requires GoodWorld(s, w) && SyncRuns.GoodWorld(sync) && SyncRuns.GenuineDb(sync.chain, db)
    requires |sync.chain| == |w.chain| && SyncRuns.AllHonest(sync.chain, envs)
    requires forall k :: 0 <= k < w.n ==> sync.chain[k] > 0
    requires var synced := SyncRuns.Run(sync.chain, SyncRuns.Start(sync, db), envs);
             && !synced.stopped && synced.cursors.synced && w.n <= synced.cursors.forward.nextSequence
             && forall i :: 0 <= i < |actions| ==>
                  AnsweredFrom(synced.db, w.chain, Run(s, Launch(s, w.chain, w.n, w.store, w.latest), actions[..i]).backfill,
                               actions[i])
    ensures var synced := SyncRuns.Run(sync.chain, SyncRuns.Start(sync, db), envs);
            var start := Launch(s, w.chain, w.n, w.store, w.latest);
            var end := Run(s, start, actions);
            var next := NextMove(Backfill, w.chain, end.backfill);
            && Moves(s, Backfill, start, actions) <= 3 * w.n + 3
            && (if end.backfill.phase.Idle? then forall k :: 0 <= k < w.n ==> k in end.store
                else MovesOn(Backfill, end.backfill, next) && AnsweredFrom(synced.db, w.chain, end.backfill, next))
  {
    var synced := SyncRuns.Run(sync.chain, SyncRuns.Start(sync, db), envs);
    forall k: nat | k < w.n
      ensures k in synced.db
    {
      SyncRuns.CaughtUpMeansComplete(sync, db, envs, k);
    }
    BackfillCompletes(s, w, actions);
    MovesCount(s, Backfill, w.chain, 0, w.n, Launch(s, w.chain, w.n, w.store, w.latest), actions);
  }

  /** The places in the list whose validators may be dishonest. */
  ghost function Dishonest(s: Setup, chain: seq<H256>, net: Network, validators: seq<H256>): set<nat> {
    set p: nat | p < |validators| && !HonestStore(s, chain, net, validators[p])
  }

  lemma {:induction false} IncreasingAreDistinct(ps: seq<nat>, bound: set<nat>)
    requires Increasing(ps) && forall k :: 0 <= k < |ps| ==> ps[k] in bound
    ensures |ps| <= |bound|
    decreases |ps|
  {
    if ps != [] {
      IncreasingAreDistinct(ps[..|ps| - 1], bound - {ps[|ps| - 1]});
    }
  }

  /** With fewer dishonest places than the threshold, a fetched quorum is over the chain's own
      checkpoint, with the chain's own message. */
  lemma FetchedQuorumIsGenuine(
    s: Setup, chain: seq<H256>, net: Network, validators: seq<H256>, threshold: nat, index: nat, m: MultisigSignedCheckpoint
  )
    requires |Dishonest(s, chain, net, validators)| < threshold
    requires Quorums.Fetch(net, validators, threshold, index) == Fetched(m)
    ensures index < |chain| && m.checkpoint == QueuedAt(s, chain, index)
  {
    var ps := FetchedIsQuorum(net, validators, threshold, index, m);
    if forall k :: 0 <= k < |ps| ==> ps[k] in Dishonest(s, chain, net, validators) {
      IncreasingAreDistinct(ps, Dishonest(s, chain, net, validators));
      assert false;
    }
    var k :| 0 <= k < |ps| && ps[k] !in Dishonest(s, chain, net, validators);
    assert Signs(net, validators[ps[k]], index, SignedCheckpoint(m.checkpoint, m.signatures[k]));
  }

  /** So every proof the relayer builds for a message up to the checkpoint's index, from a tree that
      has at least its leaves, evaluates to the root the quorum signed. */
  lemma RelayedProofMatchesQuorum(
    s: Setup, chain: seq<H256>, net: Network, validators: seq<H256>, threshold: nat, index: nat,
    m: MultisigSignedCheckpoint, indexed: nat, i: nat
  )
    requires |Dishonest(s, chain, net, validators)| < threshold
    requires Quorums.Fetch(net, validators, threshold, index) == Fetched(m)
    requires i <= index < indexed <= |chain| <= Pow2(s.depth)
    ensures var leaves := chain[..indexed];
            var proof := ProofAmong(s.hash, leaves[..index + 1], i, s.depth);
            && proof.leaf == chain[i]
            && BranchRoot(s.hash, proof.leaf, PathOf(proof.path), Low(proof.index, s.depth)) == m.checkpoint.checkpoint.root
            && m.checkpoint.messageId == chain[index] && m.checkpoint.checkpoint.index == index
  {
    FetchedQuorumIsGenuine(s, chain, net, validators, threshold, index, m);
    var leaves := chain[..indexed];
    assert leaves[..index + 1] == chain[..index + 1];
    ProverAndValidatorAgree(s, leaves, i, index);
  }
}
