/** The validator: ingest leaves up to a correctness checkpoint, and only then sign. */
module Submitters {
  import opened Wrappers
  import opened Bits
  import opened Hashing
  import opened MerkleTrees
  import opened MerkleProofs
  import opened Incremental
  import opened Checkpoints

  /** What a validator is set up with: the accumulator, the hook it watches, and its signer. */
  datatype Setup = Setup(hash: HashFn, depth: nat, hook: H256, domain: nat, sign: CheckpointWithMessageId -> Signature)

  /** The checkpoint of a tree that holds `leaves`. */
  function CheckpointOf(s: Setup, leaves: seq<H256>): Checkpoint
    requires leaves != []
  {
    Checkpoint(s.hook, s.domain, Root(s.hash, leaves, 0, s.depth), |leaves| - 1)
  }

  /** What is queued when leaf `k` has been ingested. */
  function QueuedAt(s: Setup, leaves: seq<H256>, k: nat): CheckpointWithMessageId
    requires k < |leaves|
  {
    CheckpointWithMessageId(CheckpointOf(s, leaves[..k + 1]), leaves[k])
  }

  /** The queue for the leaves from `first` on. */
  function Queue(s: Setup, leaves: seq<H256>, first: nat): (queue: seq<CheckpointWithMessageId>)
    requires first <= |leaves|
    ensures |queue| == |leaves| - first
    ensures forall i :: 0 <= i < |queue| ==> queue[i] == QueuedAt(s, leaves, first + i)
  {
    seq(|leaves| - first, i requires 0 <= i < |leaves| - first => QueuedAt(s, leaves, first + i))
  }

  /** Answers of the message database to one read each. */
  datatype DbRead = Found(messageId: H256) | NotYet | DbError

  datatype Ingestion = Reached | StillWaiting | Broken

  /** The leaves after working through `answers`, until there are index + 1 of them. */
  function Ingested(leaves: seq<H256>, answers: seq<DbRead>, index: nat): (r: (seq<H256>, Ingestion))
    ensures leaves <= r.0
    ensures |leaves| <= index + 1 ==> |r.0| <= index + 1 && (r.1.Reached? <==> |r.0| == index + 1)
    decreases |answers|
  {
    if |leaves| > index then
      (leaves, Reached)
    else if answers == [] then
      (leaves, StillWaiting)
    else
      match answers[0]
      case Found(m) => Ingested(leaves + [m], answers[1..], index)
      case NotYet => Ingested(leaves, answers[1..], index)
      case DbError => (leaves, Broken)
  }

  /** How many of the first `n` answers are messages. */
  function FoundCount(answers: seq<DbRead>, n: nat): nat
    requires n <= |answers|
  {
    if n == 0 then 0 else FoundCount(answers, n - 1) + if answers[n - 1].Found? then 1 else 0
  }

  /** `now` is `leaves` and then the messages among the first `n` answers, none of which is an error, in
      their order. */
  ghost predicate Appended(leaves: seq<H256>, answers: seq<DbRead>, n: nat, now: seq<H256>) {
    && n <= |answers| && leaves <= now && |now| == |leaves| + FoundCount(answers, n)
    && forall i :: 0 <= i < n ==>
         && !answers[i].DbError?
         && (answers[i].Found? ==>
               var at := |leaves| + FoundCount(answers, i);
               at < |now| && now[at] == answers[i].messageId)
  }

  /** Where it ends: behind the last message needed, at the end of the answers, or at the first error. */
  ghost predicate EndsAt(answers: seq<DbRead>, index: nat, stop: nat, after: seq<H256>, ingestion: Ingestion)
    requires stop <= |answers|
  {
    match ingestion
    case Reached => |after| == index + 1 && (stop == 0 || answers[stop - 1].Found?)
    case StillWaiting => |after| <= index && stop == |answers|
    case Broken => |after| <= index && stop < |answers| && answers[stop].DbError?
  }

  /** What is ingested: exactly the messages served before the end, in their order. */
  lemma IngestedExactly(leaves: seq<H256>, answers: seq<DbRead>, index: nat) returns (stop: nat)
    requires |leaves| <= index + 1
    ensures var (after, ingestion) := Ingested(leaves, answers, index);
            Appended(leaves, answers, stop, after) && EndsAt(answers, index, stop, after, ingestion)
  {
    assert answers[0..] == answers;
    stop := IngestedFrom(leaves, answers, index, 0, leaves);
  }

  lemma {:induction false} IngestedFrom(leaves: seq<H256>, answers: seq<DbRead>, index: nat, n: nat, now: seq<H256>)
    returns (stop: nat)
    requires Appended(leaves, answers, n, now) && |now| <= index + 1
    requires |now| == index + 1 ==> n == 0 || answers[n - 1].Found?
    ensures var (after, ingestion) := Ingested(now, answers[n..], index);
            Appended(leaves, answers, stop, after) && EndsAt(answers, index, stop, after, ingestion)
    decreases |answers| - n
  {
    stop := n;
    if |now| <= index && n < |answers| && !answers[n].DbError? {
      var more := if answers[n].Found? then now + [answers[n].messageId] else now;
      assert answers[n..][1..] == answers[n + 1..];
      AppendedStep(leaves, answers, n, now, more);
      stop := IngestedFrom(leaves, answers, index, n + 1, more);
    }
  }

  lemma AppendedStep(leaves: seq<H256>, answers: seq<DbRead>, n: nat, now: seq<H256>, more: seq<H256>)
    requires n < |answers| && Appended(leaves, answers, n, now) && !answers[n].DbError?
    requires more == if answers[n].Found? then now + [answers[n].messageId] else now
    ensures Appended(leaves, answers, n + 1, more)
  {
  }

  /** The store after signing and writing what is queued and not there yet. */
  function Stored(s: Setup, store: map<nat, SignedCheckpoint>, queue: seq<CheckpointWithMessageId>): map<nat, SignedCheckpoint> {
    if queue == [] then
      store
    else
      var before, last := Stored(s, store, queue[..|queue| - 1]), queue[|queue| - 1];
      if last.checkpoint.index in before then before
      else before[last.checkpoint.index := SignedCheckpoint(last, s.sign(last))]
  }

  datatype Outcome =
    | Waiting          // the database has not served all leaves yet
    | DatabaseFailed
    | IncorrectRoot    // the task ends without signing
    | StoreFailed      // some call to the signer or the store failed on the way
    | Submitted

  /** How a submission ends once `leaves` are ingested, those from `first` on in this call, and what it
      makes of the store and the latest index. */
  ghost predicate SubmissionEnds(
    s: Setup, leaves: seq<H256>, first: nat, ingestion: Ingestion, target: Checkpoint, failAt: nat, outcome: Outcome,
    store: map<nat, SignedCheckpoint>, latest: Option<nat>, store': map<nat, SignedCheckpoint>, latest': Option<nat>
  )
    requires first <= |leaves| && (ingestion.Reached? ==> leaves != [])
  {
    var queue := Queue(s, leaves, first);
    match outcome
    case Waiting => ingestion.StillWaiting? && store' == store && latest' == latest
    case DatabaseFailed => ingestion.Broken? && store' == store && latest' == latest
    case IncorrectRoot =>
      ingestion.Reached? && CheckpointOf(s, leaves) != target && store' == store && latest' == latest
    case StoreFailed =>
      && ingestion.Reached? && CheckpointOf(s, leaves) == target && queue != [] && failAt <= |queue|
      && store' == Stored(s, store, queue[..failAt]) && latest' == latest
    case Submitted =>
      && ingestion.Reached? && CheckpointOf(s, leaves) == target && (queue == [] || failAt > |queue|)
      && store' == Stored(s, store, queue)
      && latest' == if queue == [] then latest else LatestAfter(latest, target.index)
  }

  class ValidatorSubmitter {
    const setup: Setup
    const storage: CheckpointStorage

    constructor (setup: Setup, storage: CheckpointStorage)
      ensures this.setup == setup && this.storage == storage
    {
      this.setup, this.storage := setup, storage;
    }

    method CurrentCheckpoint(tree: IncrementalMerkle) returns (checkpoint: Checkpoint)
      requires tree.Valid() && tree.count > 0 && tree.hash == setup.hash && tree.depth == setup.depth
      ensures checkpoint == CheckpointOf(setup, tree.leaves)
      ensures checkpoint.hook == setup.hook && checkpoint.domain == setup.domain
      ensures checkpoint.root == Root(setup.hash, tree.leaves, 0, setup.depth) && checkpoint.index == |tree.leaves| - 1
    {
      var root := tree.CurrentRoot();
      var index := tree.Index();
      checkpoint := Checkpoint(setup.hook, setup.domain, root, index);
    }

    /** Ingest until the correctness checkpoint's index, and submit the queue if the roots agree.
        `answers` are the database's answers in order; `failAt` is the item of the queue at which the
        signer or the store fails, the queue's length for the update of the latest index. */
    method SubmitUntil(tree: IncrementalMerkle, target: Checkpoint, answers: seq<DbRead>, failAt: nat)
      returns (outcome: Outcome)
      requires tree.Valid() && tree.hash == setup.hash && tree.depth == setup.depth
      requires tree.count <= target.index + 1 <= U32_MAX
      modifies tree`count, tree`leaves, tree.branch, storage
      ensures tree.Valid()
      ensures var (leaves, ingestion) := Ingested(old(tree.leaves), answers, target.index);
              && tree.leaves == leaves
              && SubmissionEnds(setup, leaves, |old(tree.leaves)|, ingestion, target, failAt, outcome,
                                old(storage.checkpoints), old(storage.latest), storage.checkpoints, storage.latest)
    {
      var queue, ingestion := IngestUntil(tree, target, answers);
      if ingestion.StillWaiting? {
        return Waiting;
      } else if ingestion.Broken? {
        return DatabaseFailed;
      }
      var checkpoint := CurrentCheckpoint(tree);
      if checkpoint != target {
        return IncorrectRoot;
      }
      if queue != [] {
        ghost var leaves, first := tree.leaves, |old(tree.leaves)|;
        ghost var store, latest := storage.checkpoints, storage.latest;
        var ok := SignAndSubmit(queue, failAt);
        QueueSubmitted(setup, leaves, first, target, failAt, ok, store, latest, storage.checkpoints, storage.latest);
        if !ok {
          return StoreFailed;
        }
      }
      return Submitted;
    }

    method IngestUntil(tree: IncrementalMerkle, target: Checkpoint, answers: seq<DbRead>)
      returns (queue: seq<CheckpointWithMessageId>, ingestion: Ingestion)
      requires tree.Valid() && tree.hash == setup.hash && tree.depth == setup.depth
      requires tree.count <= target.index + 1 <= U32_MAX
      modifies tree`count, tree`leaves, tree.branch
      ensures tree.Valid()
      ensures (tree.leaves, ingestion) == Ingested(old(tree.leaves), answers, target.index)
      ensures queue == Queue(setup, tree.leaves, |old(tree.leaves)|)
    {
      ghost var first := |tree.leaves|;
      queue := [];
      var next := 0;
      while tree.count <= target.index
        invariant tree.Valid() && 0 <= next <= |answers| && first <= tree.count <= target.index + 1
        invariant queue == Queue(setup, tree.leaves, first)
        invariant Ingested(old(tree.leaves), answers, target.index) == Ingested(tree.leaves, answers[next..], target.index)
        decreases |answers| - next
      {
        if next == |answers| {
          return queue, StillWaiting;
        }
        match answers[next] {
          case Found(messageId) =>
            ghost var before := tree.leaves;
            tree.Ingest(messageId);
            var checkpoint := CurrentCheckpoint(tree);
            QueueGrows(setup, before, messageId, first);
            queue := queue + [CheckpointWithMessageId(checkpoint, messageId)];
          case NotYet =>
          case DbError =>
            return queue, Broken;
        }
        next := next + 1;
      }
      return queue, Reached;
    }

    method SignAndSubmit(queue: seq<CheckpointWithMessageId>, failAt: nat) returns (ok: bool)
      requires queue != []
      modifies storage
      ensures ok <==> failAt > |queue|
      ensures storage.checkpoints == Stored(setup, old(storage.checkpoints), if ok then queue else queue[..failAt])
      ensures storage.latest == if ok then LatestAfter(old(storage.latest), queue[|queue| - 1].checkpoint.index)
                                else old(storage.latest)
    {
      for i := 0 to |queue|
        invariant i <= failAt
        invariant storage.checkpoints == Stored(setup, old(storage.checkpoints), queue[..i])
        invariant storage.latest == old(storage.latest)
      {
        if failAt == i {
          return false;
        }
        assert queue[..i + 1][..i] == queue[..i];
        var existing := storage.FetchCheckpoint(queue[i].checkpoint.index);
        if existing.None? {
          var signed := SignedCheckpoint(queue[i], setup.sign(queue[i]));
          storage.WriteCheckpoint(signed);
        }
      }
      assert queue[..|queue|] == queue;
      if failAt == |queue| {
        return false;
      }
      storage.UpdateLatestIndex(queue[|queue| - 1].checkpoint.index);
      return true;
    }
  }

  /** What signing and submitting a queue comes to; a queue ends with the last leaf. */
  lemma QueueSubmitted(
    s: Setup, leaves: seq<H256>, first: nat, target: Checkpoint, failAt: nat, ok: bool,
    store: map<nat, SignedCheckpoint>, latest: Option<nat>, store': map<nat, SignedCheckpoint>, latest': Option<nat>
  )
    requires first < |leaves| && CheckpointOf(s, leaves) == target
    requires var queue := Queue(s, leaves, first);
             && (ok <==> failAt > |queue|)
             && store' == Stored(s, store, if ok then queue else queue[..failAt])
             && latest' == if ok then LatestAfter(latest, queue[|queue| - 1].checkpoint.index) else latest
    ensures SubmissionEnds(s, leaves, first, Reached, target, failAt, if ok then Submitted else StoreFailed,
                           store, latest, store', latest')
  {
  }

  lemma QueueGrows(s: Setup, leaves: seq<H256>, messageId: H256, first: nat)
    requires first <= |leaves|
    ensures Queue(s, leaves + [messageId], first)
            == Queue(s, leaves, first) + [CheckpointWithMessageId(CheckpointOf(s, leaves + [messageId]), messageId)]
  {
    var after := leaves + [messageId];
    assert after[..|leaves| + 1] == after;
    forall k | 0 <= k < |leaves|
      ensures QueuedAt(s, after, k) == QueuedAt(s, leaves, k)
    {
      assert after[..k + 1] == leaves[..k + 1];
    }
  }

  /** The store keeps what it had, and gains exactly the signed queue items at indices it lacked. */
  lemma {:induction false} StoredExactly(s: Setup, store: map<nat, SignedCheckpoint>, leaves: seq<H256>, first: nat, k: nat)
    requires first <= |leaves|
    ensures var after := Stored(s, store, Queue(s, leaves, first));
            && (k in after <==> k in store || first <= k < |leaves|)
            && (k in store ==> after[k] == store[k])
            && (k !in store && first <= k < |leaves| ==>
                  after[k] == SignedCheckpoint(QueuedAt(s, leaves, k), s.sign(QueuedAt(s, leaves, k))))
  {
    StoredPrefix(s, store, leaves, first, |leaves| - first, k);
    assert Queue(s, leaves, first)[..|leaves| - first] == Queue(s, leaves, first);
  }

  /** The same for a part of the queue, which is what a failure on the way leaves. */
  lemma {:induction false} StoredPrefix(
    s: Setup, store: map<nat, SignedCheckpoint>, leaves: seq<H256>, first: nat, n: nat, k: nat
  )
    requires first + n <= |leaves|
    ensures var after := Stored(s, store, Queue(s, leaves, first)[..n]);
            && (k in after <==> k in store || first <= k < first + n)
            && (k in store ==> after[k] == store[k])
            && (k !in store && first <= k < first + n ==>
                  after[k] == SignedCheckpoint(QueuedAt(s, leaves, k), s.sign(QueuedAt(s, leaves, k))))
  {
    if n > 0 {
      var queue := Queue(s, leaves, first);
      assert queue[..n][..n - 1] == queue[..n - 1];
      StoredPrefix(s, store, leaves, first, n - 1, k);
      StoredPrefix(s, store, leaves, first, n - 1, first + n - 1);
    }
  }

  // ----- Safety -----

  /** The checkpoint the chain had at `index`. */
  ghost predicate Genuine(s: Setup, chain: seq<H256>, checkpoint: Checkpoint) {
    checkpoint.index < |chain| && checkpoint == CheckpointOf(s, chain[..checkpoint.index + 1])
  }

  /** If a tree reaches a genuine checkpoint, every one of its leaves is the chain's: those ingested
      from the database, and those it started from. So everything queued is genuine too. */
  lemma MatchingRootMeansGenuineLeaves(s: Setup, chain: seq<H256>, leaves: seq<H256>, pairs: set<Pair>)
    requires 0 < |leaves| <= Pow2(s.depth)
    requires Genuine(s, chain, CheckpointOf(s, leaves))
    requires RootHashes(s.hash, leaves, 0, s.depth, pairs)
    requires RootHashes(s.hash, chain[..|leaves|], 0, s.depth, pairs)
    requires CollisionFree(s.hash, pairs)
    ensures leaves == chain[..|leaves|]
    ensures forall k :: 0 <= k < |leaves| ==> QueuedAt(s, leaves, k) == QueuedAt(s, chain, k)
  {
    RootBinding(s.hash, leaves, chain[..|leaves|], s.depth, pairs);
    forall k | 0 <= k < |leaves|
      ensures QueuedAt(s, leaves, k) == QueuedAt(s, chain, k)
    {
      assert leaves[..k + 1] == chain[..k + 1];
    }
  }

  // ----- Completeness -----

  lemma {:induction false} FoundAt(answers: seq<DbRead>, n: nat, c: nat) returns (i: nat)
    requires n <= |answers| && c < FoundCount(answers, n)
    ensures i < n && answers[i].Found? && FoundCount(answers, i) == c
  {
    if c < FoundCount(answers, n - 1) {
      i := FoundAt(answers, n - 1, c);
    } else {
      i := n - 1;
    }
  }

  /** Nothing but the chain's next leaves is served, at whatever pace. */
  ghost predicate ServesChain(chain: seq<H256>, first: nat, answers: seq<DbRead>) {
    forall i :: 0 <= i < |answers| ==>
      && !answers[i].DbError?
      && (answers[i].Found? ==>
            var at := first + FoundCount(answers, i);
            at < |chain| ==> answers[i].messageId == chain[at])
  }

  /** If enough of the chain's leaves are served, the tree reaches the index, and has exactly the chain's
      leaves. */
  lemma ServedChainIsReached(chain: seq<H256>, first: nat, answers: seq<DbRead>, index: nat)
    requires first <= index + 1 <= |chain| && ServesChain(chain, first, answers)
    requires first + FoundCount(answers, |answers|) >= index + 1
    ensures Ingested(chain[..first], answers, index) == (chain[..index + 1], Reached)
  {
    var (after, ingestion) := Ingested(chain[..first], answers, index);
    var stop := IngestedExactly(chain[..first], answers, index);
    forall k | first <= k < |after|
      ensures after[k] == chain[k]
    {
      var i := FoundAt(answers, stop, k - first);
      assert after[first + FoundCount(answers, i)] == answers[i].messageId;
    }
    forall k | 0 <= k < first
      ensures after[k] == chain[k]
    {
      assert after[k] == chain[..first][k];
    }
    assert ingestion.Reached?;
    assert after == chain[..index + 1];
  }

  /** Every index from `first` to `index` is stored, with the chain's checkpoint if it was not there. */
  ghost predicate SubmittedUpTo(
    s: Setup, chain: seq<H256>, first: nat, index: nat,
    store: map<nat, SignedCheckpoint>, latest: Option<nat>, store': map<nat, SignedCheckpoint>, latest': Option<nat>
  )
    requires index < |chain|
  {
    && (forall k: nat :: first <= k <= index ==> k in store' && (k !in store ==> store'[k].value == QueuedAt(s, chain, k)))
    && latest' == if first == index + 1 then latest else LatestAfter(latest, index)
  }

  /** So a validator that holds the chain's first leaves, and is served the next ones, submits whatever
      genuine checkpoint it is to reach, unless the signer or the store fails. */
  lemma ServedChainIsSubmitted(
    s: Setup, chain: seq<H256>, first: nat, answers: seq<DbRead>, target: Checkpoint, failAt: nat,
    leaves: seq<H256>, ingestion: Ingestion, outcome: Outcome,
    store: map<nat, SignedCheckpoint>, latest: Option<nat>, store': map<nat, SignedCheckpoint>, latest': Option<nat>
  )
    requires Genuine(s, chain, target) && first <= target.index + 1 && ServesChain(chain, first, answers)
    requires first + FoundCount(answers, |answers|) >= target.index + 1 && failAt > target.index + 1 - first
    requires (leaves, ingestion) == Ingested(chain[..first], answers, target.index)
    requires SubmissionEnds(s, leaves, first, ingestion, target, failAt, outcome, store, latest, store', latest')
    ensures outcome.Submitted? && SubmittedUpTo(s, chain, first, target.index, store, latest, store', latest')
  {
    ServedChainIsReached(chain, first, answers, target.index);
    CorrectIsSubmitted(s, chain, first, target, failAt, leaves, ingestion, outcome, store, latest, store', latest');
  }

  lemma CorrectIsSubmitted(
    s: Setup, chain: seq<H256>, first: nat, target: Checkpoint, failAt: nat,
    leaves: seq<H256>, ingestion: Ingestion, outcome: Outcome,
    store: map<nat, SignedCheckpoint>, latest: Option<nat>, store': map<nat, SignedCheckpoint>, latest': Option<nat>
  )
    requires Genuine(s, chain, target) && first <= target.index + 1 && failAt > target.index + 1 - first
    requires leaves == chain[..target.index + 1] && ingestion.Reached?
    requires SubmissionEnds(s, leaves, first, ingestion, target, failAt, outcome, store, latest, store', latest')
    ensures outcome.Submitted? && SubmittedUpTo(s, chain, first, target.index, store, latest, store', latest')
  {
    assert store' == Stored(s, store, Queue(s, leaves, first));
    forall k: nat | first <= k <= target.index
      ensures k in store' && (k !in store ==> store'[k].value == QueuedAt(s, chain, k))
    {
      StoredExactly(s, store, leaves, first, k);
      QueuedOfPrefix(s, chain, target.index + 1, k);
    }
  }

  lemma QueuedOfPrefix(s: Setup, chain: seq<H256>, n: nat, k: nat)
    requires k < n <= |chain|
    ensures QueuedAt(s, chain[..n], k) == QueuedAt(s, chain, k)
  {
    assert chain[..n][..k + 1] == chain[..k + 1];
  }
}
