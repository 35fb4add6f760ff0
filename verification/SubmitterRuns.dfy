/** The backfill and the tip submitter of one validator, interleaved at every await. */
module SubmitterRuns {
  import opened Wrappers
  import opened Bits
  import opened Hashing
  import opened MerkleTrees
  import opened MerkleProofs
  import opened Checkpoints
  import opened Submitters

  datatype Who = Backfill | Tip

  datatype Phase =
    | Idle                                           // between rounds; for the backfill, done for good
    | Ingesting(target: Checkpoint, first: nat)      // the queue starts at `first`
    | Signing(first: nat, next: nat, absent: bool)   // `absent`: `next` was fetched and not found
    | Publishing(first: nat, current: nat)           // the latest index was read as `current`
    | Halted

  datatype Task = Task(leaves: seq<H256>, phase: Phase)

  /** The two tasks and the store they share; `written` records who wrote which index, in order. */
  datatype System = System(
    backfill: Task,
    tip: Task,
    store: map<nat, SignedCheckpoint>,
    latest: Option<nat>,
    written: seq<(Who, nat)>
  )

  /** One step between two awaits. An action that the task is not ready for changes nothing. */
  datatype Action =
    | Observe(target: Checkpoint)
    | Read(who: Who, answer: DbRead)
    | Check(who: Who)
    | Fetch(who: Who)
    | Write(who: Who)
    | ReadLatest(who: Who)
    | Publish(who: Who)
    | Fail(who: Who)

  function TaskOf(sys: System, who: Who): Task {
    match who
    case Backfill => sys.backfill
    case Tip => sys.tip
  }

  function Other(who: Who): Who {
    match who
    case Backfill => Tip
    case Tip => Backfill
  }

  function WithTask(sys: System, who: Who, t: Task): System {
    match who
    case Backfill => sys.(backfill := t)
    case Tip => sys.(tip := t)
  }

  function Actor(action: Action): Who {
    if action.Observe? then Tip else action.who
  }

  function Next(s: Setup, sys: System, action: Action): System {
    if action.Write? then
      WriteSigned(s, sys, action.who)
    else if action.Publish? then
      PublishLatest(sys, action.who)
    else
      WithTask(sys, Actor(action), TaskAfter(s, TaskOf(sys, Actor(action)), sys.store, sys.latest, action))
  }

  /** What an action does that changes nothing but the task. */
  function TaskAfter(s: Setup, t: Task, store: map<nat, SignedCheckpoint>, latest: Option<nat>, action: Action): Task
    requires !action.Write? && !action.Publish?
  {
    match action
    case Observe(target) => AfterObserve(t, target)
    case Read(_, answer) => AfterRead(t, answer)
    case Check(_) => AfterCheck(s, t)
    case Fetch(_) => AfterFetch(t, store)
    case ReadLatest(_) => AfterReadLatest(t, latest)
    case Fail(_) => t.(phase := Halted)
  }

  /** Only the tip task looks for new checkpoints, and skips those behind its tree. */
  function AfterObserve(t: Task, target: Checkpoint): Task {
    if t.phase.Idle? && |t.leaves| <= target.index + 1 then t.(phase := Ingesting(target, |t.leaves|)) else t
  }

  function AfterRead(t: Task, answer: DbRead): Task {
    if !t.phase.Ingesting? || |t.leaves| > t.phase.target.index then
      t
    else
      match answer
      case Found(m) => t.(leaves := t.leaves + [m])
      case NotYet => t
      case DbError => t.(phase := Halted)
  }

  function AfterCheck(s: Setup, t: Task): Task {
    if !t.phase.Ingesting? || |t.leaves| <= t.phase.target.index then
      t
    else if CheckpointOf(s, t.leaves) != t.phase.target then
      t.(phase := Halted)
    else if t.phase.first >= |t.leaves| then
      t.(phase := Idle)
    else
      t.(phase := Signing(t.phase.first, t.phase.first, false))
  }

  function AfterFetch(t: Task, store: map<nat, SignedCheckpoint>): Task {
    if !t.phase.Signing? || t.phase.absent || t.phase.next >= |t.leaves| then
      t
    else if t.phase.next in store then
      t.(phase := Signing(t.phase.first, t.phase.next + 1, false))
    else
      t.(phase := Signing(t.phase.first, t.phase.next, true))
  }

  function AfterWrite(t: Task): Task
    requires t.phase.Signing?
  {
    t.(phase := Signing(t.phase.first, t.phase.next + 1, false))
  }

  function AfterReadLatest(t: Task, latest: Option<nat>): Task {
    if t.phase.Signing? && t.phase.next == |t.leaves| then t.(phase := Publishing(t.phase.first, latest.GetOr(0))) else t
  }

  function WriteSigned(s: Setup, sys: System, who: Who): System {
    var t := TaskOf(sys, who);
    if !t.phase.Signing? || !t.phase.absent || t.phase.next >= |t.leaves| then
      sys
    else
      var k, value := t.phase.next, QueuedAt(s, t.leaves, t.phase.next);
      WithTask(sys, who, AfterWrite(t)).(
        store := sys.store[k := SignedCheckpoint(value, s.sign(value))],
        written := sys.written + [(who, k)])
  }

  function PublishLatest(sys: System, who: Who): System {
    var t := TaskOf(sys, who);
    if !t.phase.Publishing? then
      sys
    else
      var done := WithTask(sys, who, t.(phase := Idle));
      if |t.leaves| - 1 > t.phase.current then done.(latest := Some(|t.leaves| - 1)) else done
  }

  /** Launch: the tip task gets the chain's tree of `n` leaves, the backfill its checkpoint. */
  function Launch(s: Setup, chain: seq<H256>, n: nat, store: map<nat, SignedCheckpoint>, latest: Option<nat>): System
    requires 0 < n <= |chain|
  {
    System(Task([], Ingesting(CheckpointOf(s, chain[..n]), 0)), Task(chain[..n], Idle), store, latest, [])
  }

  function Run(s: Setup, sys: System, actions: seq<Action>): System
  {
    if actions == [] then sys else Next(s, Run(s, sys, actions[..|actions| - 1]), actions[|actions| - 1])
  }

  // ----- What every reachable system satisfies -----

  /** The chain's leaves, and the launch: its tree size and the store it found. */
  datatype World = World(chain: seq<H256>, n: nat, store: map<nat, SignedCheckpoint>, latest: Option<nat>)

  /** The indices each task may write: [0, n) and [n, ...). */
  ghost predicate Owns(w: World, who: Who, k: nat) {
    k < |w.chain| && match who
                     case Backfill => k < w.n
                     case Tip => w.n <= k
  }

  function Start(w: World, who: Who): nat {
    match who
    case Backfill => 0
    case Tip => w.n
  }

  /** `leaves` are the chain's, within the task's range, and all it owns below `upTo` is stored. */
  ghost predicate Caught(w: World, who: Who, leaves: seq<H256>, upTo: nat, store: map<nat, SignedCheckpoint>) {
    && Start(w, who) <= upTo <= |leaves| <= |w.chain|
    && leaves == w.chain[..|leaves|]
    && (who.Backfill? ==> |leaves| == w.n)
    && forall k :: Start(w, who) <= k < upTo ==> k in store
  }

  ghost predicate TaskInv(s: Setup, w: World, who: Who, t: Task, store: map<nat, SignedCheckpoint>) {
    match t.phase
    case Idle => Caught(w, who, t.leaves, |t.leaves|, store)
    case Ingesting(target, first) =>
      && Genuine(s, w.chain, target) && Start(w, who) <= first <= |t.leaves| <= target.index + 1
      && (who.Backfill? ==> target.index + 1 == w.n)
      && forall k :: Start(w, who) <= k < first ==> k in store
    case Signing(first, next, absent) =>
      && Start(w, who) <= first < |t.leaves| && Caught(w, who, t.leaves, next, store)
      && (absent ==> next < |t.leaves| && next !in store)
    case Publishing(first, _) =>
      Start(w, who) <= first < |t.leaves| && Caught(w, who, t.leaves, |t.leaves|, store)
    case Halted => true
  }

  ghost predicate StoreInv(s: Setup, w: World, sys: System) {
    && (forall k :: k in w.store ==> k in sys.store && sys.store[k] == w.store[k])
    && (forall k :: k in sys.store && k !in w.store ==> WrittenBy(sys.written, k))
    && (forall i :: 0 <= i < |sys.written| ==>
          var (who, k) := sys.written[i];
          Owns(w, who, k) && k !in w.store && k in sys.store && sys.store[k] == GenuineSigned(s, w, k))
    && (forall i, j :: 0 <= i < j < |sys.written| ==> sys.written[i].1 != sys.written[j].1)
  }

  ghost predicate WrittenBy(written: seq<(Who, nat)>, k: nat) {
    exists i :: 0 <= i < |written| && written[i].1 == k
  }

  ghost function GenuineSigned(s: Setup, w: World, k: nat): SignedCheckpoint
    requires k < |w.chain|
  {
    SignedCheckpoint(QueuedAt(s, w.chain, k), s.sign(QueuedAt(s, w.chain, k)))
  }

  /** All that a task owns up to `index` is stored. */
  ghost predicate Backed(w: World, who: Who, index: nat, store: map<nat, SignedCheckpoint>) {
    Start(w, who) <= index && forall k :: Start(w, who) <= k <= index ==> k in store
  }

  /** The latest index is the launch's, or one that a task has backed. */
  ghost predicate LatestInv(w: World, sys: System) {
    || sys.latest == w.latest
    || (sys.latest.Some?
        && (Backed(w, Backfill, sys.latest.value, sys.store) || Backed(w, Tip, sys.latest.value, sys.store)))
  }

  ghost predicate Inv(s: Setup, w: World, sys: System) {
    && TaskInv(s, w, Backfill, sys.backfill, sys.store)
    && TaskInv(s, w, Tip, sys.tip, sys.store)
    && StoreInv(s, w, sys)
    && LatestInv(w, sys)
  }

  ghost predicate GoodWorld(s: Setup, w: World) {
    0 < w.n <= |w.chain| <= Pow2(s.depth)
  }

  /** All pairs hashed for the roots of the tasks' trees are among `pairs`. */
  ghost predicate HashesWithin(s: Setup, sys: System, pairs: set<Pair>)
  {
    && RootHashes(s.hash, sys.backfill.leaves, 0, s.depth, pairs)
    && RootHashes(s.hash, sys.tip.leaves, 0, s.depth, pairs)
  }

  ghost predicate ChainHashesWithin(s: Setup, chain: seq<H256>, pairs: set<Pair>) {
    forall m :: 0 <= m <= |chain| ==> RootHashes(s.hash, chain[..m], 0, s.depth, pairs)
  }

  /** Checkpoints are observed on the chain. */
  ghost predicate Truthful(s: Setup, chain: seq<H256>, action: Action) {
    action.Observe? ==> Genuine(s, chain, action.target)
  }

  lemma LaunchInv(s: Setup, w: World)
    requires GoodWorld(s, w)
    ensures Inv(s, w, Launch(s, w.chain, w.n, w.store, w.latest))
  {
    assert w.chain[..w.n][..w.n] == w.chain[..w.n];
  }

  /** A step that only replaces a task by one that is as it should be. */
  lemma TaskStep(s: Setup, w: World, sys: System, who: Who, t: Task)
    requires Inv(s, w, sys) && TaskInv(s, w, who, t, sys.store)
    ensures Inv(s, w, WithTask(sys, who, t))
  {
  }

  lemma ObserveInv(s: Setup, w: World, t: Task, store: map<nat, SignedCheckpoint>, target: Checkpoint)
    requires TaskInv(s, w, Tip, t, store) && Genuine(s, w.chain, target)
    ensures TaskInv(s, w, Tip, AfterObserve(t, target), store)
  {
  }

  lemma ReadInv(s: Setup, w: World, who: Who, t: Task, store: map<nat, SignedCheckpoint>, answer: DbRead)
    requires TaskInv(s, w, who, t, store)
    ensures TaskInv(s, w, who, AfterRead(t, answer), store)
  {
  }

  /** The heart of safety: only genuine leaves pass the check. */
  lemma CheckInv(s: Setup, w: World, who: Who, t: Task, store: map<nat, SignedCheckpoint>, pairs: set<Pair>)
    requires GoodWorld(s, w) && TaskInv(s, w, who, t, store)
    requires RootHashes(s.hash, t.leaves, 0, s.depth, pairs)
    requires ChainHashesWithin(s, w.chain, pairs) && CollisionFree(s.hash, pairs)
    ensures TaskInv(s, w, who, AfterCheck(s, t), store)
  {
    if t.phase.Ingesting? && |t.leaves| > t.phase.target.index && CheckpointOf(s, t.leaves) == t.phase.target {
      MatchingRootMeansGenuineLeaves(s, w.chain, t.leaves, pairs);
    }
  }

  lemma FetchInv(s: Setup, w: World, who: Who, t: Task, store: map<nat, SignedCheckpoint>)
    requires TaskInv(s, w, who, t, store)
    ensures TaskInv(s, w, who, AfterFetch(t, store), store)
  {
  }

  lemma ReadLatestInv(s: Setup, w: World, who: Who, t: Task, store: map<nat, SignedCheckpoint>, latest: Option<nat>)
    requires TaskInv(s, w, who, t, store)
    ensures TaskInv(s, w, who, AfterReadLatest(t, latest), store)
  {
  }

  lemma WriteInv(s: Setup, w: World, sys: System, who: Who)
    requires Inv(s, w, sys)
    ensures Inv(s, w, WriteSigned(s, sys, who))
  {
    var t := TaskOf(sys, who);
    assert TaskInv(s, w, who, t, sys.store);
    if t.phase.Signing? && t.phase.absent {
      var k := t.phase.next;
      assert QueuedAt(s, t.leaves, k) == QueuedAt(s, w.chain, k) by {
        assert t.leaves[..k + 1] == w.chain[..k + 1];
      }
      WriteKeepsStoreInv(s, w, sys, who, k);
      WriterGoesOn(s, w, who, t, sys.store, GenuineSigned(s, w, k));
      OtherTaskKept(s, w, Other(who), TaskOf(sys, Other(who)), sys.store, k, GenuineSigned(s, w, k));
      LatestKept(w, sys, WriteSigned(s, sys, who));
    }
  }

  lemma WriterGoesOn(s: Setup, w: World, who: Who, t: Task, store: map<nat, SignedCheckpoint>, signed: SignedCheckpoint)
    requires TaskInv(s, w, who, t, store) && t.phase.Signing? && t.phase.absent
    ensures TaskInv(s, w, who, AfterWrite(t), store[t.phase.next := signed])
  {
  }

  lemma OtherTaskKept(
    s: Setup, w: World, who: Who, t: Task, store: map<nat, SignedCheckpoint>, k: nat, signed: SignedCheckpoint
  )
    requires TaskInv(s, w, who, t, store) && k < |w.chain| && !Owns(w, who, k)
    ensures TaskInv(s, w, who, t, store[k := signed])
  {
  }

  lemma LatestKept(w: World, sys: System, after: System)
    requires LatestInv(w, sys) && after.latest == sys.latest && sys.store.Keys <= after.store.Keys
    ensures LatestInv(w, after)
  {
  }

  lemma WriteKeepsStoreInv(s: Setup, w: World, sys: System, who: Who, k: nat)
    requires StoreInv(s, w, sys) && k !in sys.store && k < |w.chain| && Owns(w, who, k)
    ensures StoreInv(s, w, sys.(store := sys.store[k := GenuineSigned(s, w, k)], written := sys.written + [(who, k)]))
  {
    forall j | j in sys.store[k := GenuineSigned(s, w, k)] && j !in w.store
      ensures WrittenBy(sys.written + [(who, k)], j)
    {
      StaysWritten(sys.written, who, k, j);
    }
  }

  lemma StaysWritten(written: seq<(Who, nat)>, who: Who, k: nat, j: nat)
    requires j == k || WrittenBy(written, j)
    ensures WrittenBy(written + [(who, k)], j)
  {
    var after := written + [(who, k)];
    if j == k {
      assert after[|written|].1 == j;
    } else {
      var i :| 0 <= i < |written| && written[i].1 == j;
      assert after[i].1 == j;
    }
  }

  lemma PublishInv(s: Setup, w: World, sys: System, who: Who)
    requires Inv(s, w, sys)
    ensures Inv(s, w, PublishLatest(sys, who))
  {
    var t := TaskOf(sys, who);
    assert TaskInv(s, w, who, t, sys.store);
    if t.phase.Publishing? {
      TaskStep(s, w, sys, who, t.(phase := Idle));
      assert Backed(w, who, |t.leaves| - 1, sys.store);
    }
  }

  lemma TaskAfterInv(
    s: Setup, w: World, t: Task, store: map<nat, SignedCheckpoint>, latest: Option<nat>, action: Action, pairs: set<Pair>
  )
    requires GoodWorld(s, w) && TaskInv(s, w, Actor(action), t, store) && Truthful(s, w.chain, action)
    requires RootHashes(s.hash, t.leaves, 0, s.depth, pairs)
    requires ChainHashesWithin(s, w.chain, pairs) && CollisionFree(s.hash, pairs)
    requires !action.Write? && !action.Publish?
    ensures TaskInv(s, w, Actor(action), TaskAfter(s, t, store, latest, action), store)
  {
    match action {
      case Observe(target) => ObserveInv(s, w, t, store, target);
      case Read(who, answer) => ReadInv(s, w, who, t, store, answer);
      case Check(who) => CheckInv(s, w, who, t, store, pairs);
      case Fetch(who) => FetchInv(s, w, who, t, store);
      case ReadLatest(who) => ReadLatestInv(s, w, who, t, store, latest);
      case Fail(_) =>
    }
  }

  lemma NextInv(s: Setup, w: World, sys: System, action: Action, pairs: set<Pair>)
    requires GoodWorld(s, w) && Inv(s, w, sys) && Truthful(s, w.chain, action)
    requires HashesWithin(s, sys, pairs) && ChainHashesWithin(s, w.chain, pairs) && CollisionFree(s.hash, pairs)
    ensures Inv(s, w, Next(s, sys, action))
  {
    if action.Write? {
      WriteInv(s, w, sys, action.who);
    } else if action.Publish? {
      PublishInv(s, w, sys, action.who);
    } else {
      var who := Actor(action);
      TaskAfterInv(s, w, TaskOf(sys, who), sys.store, sys.latest, action, pairs);
      TaskStep(s, w, sys, who, TaskAfter(s, TaskOf(sys, who), sys.store, sys.latest, action));
    }
  }

  /** The hypotheses of the theorems on runs: observations are truthful, and none of the pairs hashed
      on the way, or for the chain's own roots, collide. */
  ghost predicate GoodRun(s: Setup, w: World, actions: seq<Action>, pairs: set<Pair>)
    requires GoodWorld(s, w)
  {
    && ChainHashesWithin(s, w.chain, pairs) && CollisionFree(s.hash, pairs)
    && (forall i :: 0 <= i < |actions| ==> Truthful(s, w.chain, actions[i]))
    && (forall i :: 0 <= i < |actions| ==>
          HashesWithin(s, Run(s, Launch(s, w.chain, w.n, w.store, w.latest), actions[..i]), pairs))
  }

  lemma {:induction false} RunInv(s: Setup, w: World, actions: seq<Action>, pairs: set<Pair>)
    requires GoodWorld(s, w) && GoodRun(s, w, actions, pairs)
    ensures Inv(s, w, Run(s, Launch(s, w.chain, w.n, w.store, w.latest), actions))
    decreases |actions|
  {
    var start := Launch(s, w.chain, w.n, w.store, w.latest);
    if actions == [] {
      LaunchInv(s, w);
    } else {
      var before := actions[..|actions| - 1];
      forall i | 0 <= i < |before|
        ensures HashesWithin(s, Run(s, start, before[..i]), pairs)
      {
        assert before[..i] == actions[..i];
      }
      RunInv(s, w, before, pairs);
      NextInv(s, w, Run(s, start, before), actions[|actions| - 1], pairs);
    }
  }

  // ----- The theorems -----

  /** Safety: whatever the database served and however the two tasks interleaved, every checkpoint
      signed is the one the chain had at its index, with the message the chain has there. */
  lemma OnlyGenuineCheckpointsAreSigned(s: Setup, w: World, actions: seq<Action>, pairs: set<Pair>, k: nat)
    requires GoodWorld(s, w) && GoodRun(s, w, actions, pairs)
    ensures var end := Run(s, Launch(s, w.chain, w.n, w.store, w.latest), actions);
            k in end.store && k !in w.store ==>
              && k < |w.chain|
              && end.store[k].value.checkpoint
                 == Checkpoint(s.hook, s.domain, Root(s.hash, w.chain[..k + 1], 0, s.depth), k)
              && end.store[k].value.messageId == w.chain[k]
              && end.store[k].signature == s.sign(end.store[k].value)
  {
    RunInv(s, w, actions, pairs);
  }

  /** Each index is written at most once and by the task that owns it, and what the store had before
      the launch is never overwritten. */
  lemma WritesAreDisjoint(s: Setup, w: World, actions: seq<Action>, pairs: set<Pair>)
    requires GoodWorld(s, w) && GoodRun(s, w, actions, pairs)
    ensures var end := Run(s, Launch(s, w.chain, w.n, w.store, w.latest), actions);
            && (forall i, j :: 0 <= i < j < |end.written| ==> end.written[i].1 != end.written[j].1)
            && (forall i :: 0 <= i < |end.written| ==> Owns(w, end.written[i].0, end.written[i].1))
            && (forall i :: 0 <= i < |end.written| ==> end.written[i].1 !in w.store)
            && (forall k :: k in w.store ==> k in end.store && end.store[k] == w.store[k])
  {
    RunInv(s, w, actions, pairs);
  }

  /** The latest index moves only to one up to which the moving task's whole range is stored; and
      once the backfill is done, the store has no gap below what the tip task has reached. */
  lemma LatestIsBackedByTheStore(s: Setup, w: World, actions: seq<Action>, pairs: set<Pair>)
    requires GoodWorld(s, w) && GoodRun(s, w, actions, pairs)
    ensures var end := Run(s, Launch(s, w.chain, w.n, w.store, w.latest), actions);
            && LatestInv(w, end)
            && (end.backfill.phase.Idle? && end.tip.phase.Idle? ==>
                  forall k :: 0 <= k < |end.tip.leaves| ==> k in end.store)
  {
    RunInv(s, w, actions, pairs);
  }

  // ----- The two models of submitting agree -----

  lemma RunAppend(s: Setup, sys: System, actions: seq<Action>, more: seq<Action>)
    ensures Run(s, sys, actions + more) == Run(s, Run(s, sys, actions), more)
    decreases |more|
  {
    if more == [] {
      assert actions + more == actions;
    } else {
      var last := more[|more| - 1];
      assert (actions + more)[..|actions + more| - 1] == actions + more[..|more| - 1];
      RunAppend(s, sys, actions, more[..|more| - 1]);
    }
  }

  /** Fetch and, if nothing was found, write: n times. */
  function FetchWrites(who: Who, n: nat): seq<Action> {
    if n == 0 then [] else FetchWrites(who, n - 1) + [Fetch(who), Write(who)]
  }

  /** Left alone, a task's round through its queue stores what `Stored` says: the step machine refines
      the sequential submitter. */
  lemma {:induction false} UninterruptedRound(s: Setup, sys: System, who: Who, first: nat, n: nat)
    requires TaskOf(sys, who).phase == Signing(first, first, false) && first + n <= |TaskOf(sys, who).leaves|
    ensures RoundStands(s, sys, who, first, n, Run(s, sys, FetchWrites(who, n)))
  {
    if n > 0 {
      UninterruptedRound(s, sys, who, first, n - 1);
      var before := Run(s, sys, FetchWrites(who, n - 1));
      RunAppend(s, sys, FetchWrites(who, n - 1), [Fetch(who), Write(who)]);
      TwoSteps(s, before, Fetch(who), Write(who));
      RoundGoesOn(s, sys, who, first, n - 1, before);
    }
  }

  /** Where a round stands after `n` items, and what it has stored. */
  ghost predicate RoundStands(s: Setup, sys: System, who: Who, first: nat, n: nat, end: System)
    requires first + n <= |TaskOf(sys, who).leaves|
  {
    && TaskOf(end, who) == Task(TaskOf(sys, who).leaves, Signing(first, first + n, false))
    && end.store == Stored(s, sys.store, Queue(s, TaskOf(sys, who).leaves, first)[..n]) && end.latest == sys.latest
  }

  lemma RoundGoesOn(s: Setup, sys: System, who: Who, first: nat, n: nat, before: System)
    requires first + n < |TaskOf(sys, who).leaves| && RoundStands(s, sys, who, first, n, before)
    ensures RoundStands(s, sys, who, first, n + 1, Next(s, Next(s, before, Fetch(who)), Write(who)))
  {
    var queue := Queue(s, TaskOf(sys, who).leaves, first);
    FetchThenWrite(s, before, who);
    assert queue[n] == QueuedAt(s, TaskOf(before, who).leaves, first + n) && queue[n].checkpoint.index == first + n;
    StoredStep(s, sys.store, queue, n);
  }

  lemma StoredStep(s: Setup, store: map<nat, SignedCheckpoint>, queue: seq<CheckpointWithMessageId>, i: nat)
    requires i < |queue|
    ensures var before, k := Stored(s, store, queue[..i]), queue[i].checkpoint.index;
            Stored(s, store, queue[..i + 1])
            == if k in before then before else before[k := SignedCheckpoint(queue[i], s.sign(queue[i]))]
  {
    assert queue[..i + 1][..i] == queue[..i];
  }

  lemma FetchThenWrite(s: Setup, sys: System, who: Who)
    requires var t := TaskOf(sys, who); t.phase.Signing? && !t.phase.absent && t.phase.next < |t.leaves|
    ensures var t, end := TaskOf(sys, who), Next(s, Next(s, sys, Fetch(who)), Write(who));
            var k, value := t.phase.next, QueuedAt(s, t.leaves, t.phase.next);
            && TaskOf(end, who) == Task(t.leaves, Signing(t.phase.first, k + 1, false))
            && end.store == (if k in sys.store then sys.store else sys.store[k := SignedCheckpoint(value, s.sign(value))])
            && end.latest == sys.latest
  {
  }

  lemma TwoSteps(s: Setup, sys: System, a: Action, b: Action)
    ensures Run(s, sys, [a, b]) == Next(s, Next(s, sys, a), b)
  {
    assert [a, b][..1] == [a] && [a][..0] == [];
    assert Run(s, sys, [a]) == Next(s, Run(s, sys, []), a);
  }

  // ----- The latest index under interleaving -----

  /** Publishing lowers the latest index exactly when the other task has overtaken it since the latest
      index was read. */
  lemma PublishLowersExactlyWhenOvertaken(sys: System, who: Who)
    requires TaskOf(sys, who).phase.Publishing?
    ensures var t, before, after := TaskOf(sys, who), sys.latest.GetOr(0), PublishLatest(sys, who).latest.GetOr(0);
            && (after < before <==> t.phase.current < |t.leaves| - 1 < before)
            && (t.phase.current == before ==> after >= before)
  {
  }

  /** One task's way from its queue to having read the latest index. */
  function SubmitActions(who: Who, n: nat): seq<Action> {
    [Check(who)] + FetchWrites(who, n) + [ReadLatest(who)]
  }

  /** And it does happen: the backfill reads the latest index, the tip publishes 2, and then the
      backfill publishes 1. */
  lemma LatestCanGoBack(s: Setup, chain: seq<H256>) returns (actions: seq<Action>)
    requires |chain| == 3
    ensures forall i :: 0 <= i < |actions| ==> Truthful(s, chain, actions[i])
    ensures var start := Launch(s, chain, 2, map[], None);
            && actions != []
            && Run(s, start, actions[..|actions| - 1]).latest == Some(2)
            && Run(s, start, actions).latest == Some(1)
  {
    var start := Launch(s, chain, 2, map[], None);
    var backfill := [Read(Backfill, Found(chain[0])), Read(Backfill, Found(chain[1]))] + SubmitActions(Backfill, 2);
    var tip := [Observe(CheckpointOf(s, chain)), Read(Tip, Found(chain[2]))] + SubmitActions(Tip, 1) + [Publish(Tip)];
    actions := backfill + tip + [Publish(Backfill)];
    assert actions[..|actions| - 1] == backfill + tip;

    var afterBackfill := Run(s, start, backfill);
    BackfillReadsLatest(s, chain);
    TipPublishes(s, chain, afterBackfill);
    RunAppend(s, start, backfill, tip);
    RunAppend(s, start, backfill + tip, [Publish(Backfill)]);
    OneStep(s, Run(s, start, backfill + tip), Publish(Backfill));
    WholeIsGenuine(s, chain);
  }

  lemma WholeIsGenuine(s: Setup, chain: seq<H256>)
    requires chain != []
    ensures Genuine(s, chain, CheckpointOf(s, chain))
  {
    assert chain[..|chain|] == chain;
  }

  lemma OneStep(s: Setup, sys: System, a: Action)
    ensures Run(s, sys, [a]) == Next(s, sys, a)
  {
    assert Run(s, sys, [a]) == Next(s, Run(s, sys, []), a);
  }

  /** From a full tree that matches its target, through the check and the queue, to the latest index. */
  lemma SubmitReadsLatest(s: Setup, sys: System, who: Who, first: nat, n: nat)
    requires var t := TaskOf(sys, who);
             && t.leaves != [] && |t.leaves| == first + n && n > 0
             && t.phase == Ingesting(CheckpointOf(s, t.leaves), first)
    ensures var t, end := TaskOf(sys, who), Run(s, sys, SubmitActions(who, n));
            && TaskOf(end, who) == Task(t.leaves, Publishing(first, sys.latest.GetOr(0))) && end.latest == sys.latest
            && end.store == Stored(s, sys.store, Queue(s, t.leaves, first))
            && TaskOf(end, Other(who)) == TaskOf(sys, Other(who))
  {
    var checked := Next(s, sys, Check(who));
    OneStep(s, sys, Check(who));
    RunAppend(s, sys, [Check(who)], FetchWrites(who, n));
    RunAppend(s, sys, [Check(who)] + FetchWrites(who, n), [ReadLatest(who)]);
    WholeRound(s, checked, who, first, n);
    OtherTaskRests(s, checked, who, n);
    OneStep(s, Run(s, checked, FetchWrites(who, n)), ReadLatest(who));
  }

  lemma WholeRound(s: Setup, sys: System, who: Who, first: nat, n: nat)
    requires TaskOf(sys, who).phase == Signing(first, first, false) && first + n == |TaskOf(sys, who).leaves|
    ensures var t, end := TaskOf(sys, who), Run(s, sys, FetchWrites(who, n));
            && TaskOf(end, who) == Task(t.leaves, Signing(first, |t.leaves|, false))
            && end.store == Stored(s, sys.store, Queue(s, t.leaves, first)) && end.latest == sys.latest
  {
    UninterruptedRound(s, sys, who, first, n);
    assert Queue(s, TaskOf(sys, who).leaves, first)[..n] == Queue(s, TaskOf(sys, who).leaves, first);
  }

  /** The actions of an undisturbed submission once all leaves are there. */
  function SubmissionActions(s: Setup, who: Who, t: Task, target: Checkpoint, first: nat): seq<Action>
    requires t.leaves != [] && first <= |t.leaves|
  {
    if CheckpointOf(s, t.leaves) == target && first < |t.leaves| then
      SubmitActions(who, |t.leaves| - first) + [Publish(who)]
    else
      [Check(who)]
  }

  /** It ends as the sequential submitter does, up to the latest index. */
  ghost predicate SubmitsAlone(s: Setup, sys: System, who: Who, target: Checkpoint, first: nat, end: System)
    requires TaskOf(sys, who).leaves != [] && first <= |TaskOf(sys, who).leaves|
  {
    var t := TaskOf(sys, who);
    var correct := CheckpointOf(s, t.leaves) == target;
    && TaskOf(end, who) == Task(t.leaves, if correct then Idle else Halted)
    && TaskOf(end, Other(who)) == TaskOf(sys, Other(who))
    && SubmissionEnds(s, t.leaves, first, Reached, target, |t.leaves| - first + 1,
                      if correct then Submitted else IncorrectRoot, sys.store, sys.latest, end.store, end.latest)
  }

  /** Left alone, a task submits as the sequential submitter does. */
  lemma UninterruptedSubmission(s: Setup, sys: System, who: Who, target: Checkpoint, first: nat)
    requires var t := TaskOf(sys, who);
             t.phase == Ingesting(target, first) && |t.leaves| == target.index + 1 && first <= |t.leaves|
    ensures SubmitsAlone(s, sys, who, target, first, Run(s, sys, SubmissionActions(s, who, TaskOf(sys, who), target, first)))
  {
    var t := TaskOf(sys, who);
    if CheckpointOf(s, t.leaves) == target && first < |t.leaves| {
      var n := |t.leaves| - first;
      SubmitReadsLatest(s, sys, who, first, n);
      RunAppend(s, sys, SubmitActions(who, n), [Publish(who)]);
      OneStep(s, Run(s, sys, SubmitActions(who, n)), Publish(who));
      PublishedAlone(s, sys, who, target, first, Run(s, sys, SubmitActions(who, n)));
    } else {
      OneStep(s, sys, Check(who));
      CheckedAlone(s, sys, who, target, first);
    }
  }

  lemma PublishedAlone(s: Setup, sys: System, who: Who, target: Checkpoint, first: nat, ready: System)
    requires var t := TaskOf(sys, who);
             && first < |t.leaves| && CheckpointOf(s, t.leaves) == target
             && TaskOf(ready, who) == Task(t.leaves, Publishing(first, sys.latest.GetOr(0)))
             && ready.latest == sys.latest && ready.store == Stored(s, sys.store, Queue(s, t.leaves, first))
             && TaskOf(ready, Other(who)) == TaskOf(sys, Other(who))
    ensures SubmitsAlone(s, sys, who, target, first, Next(s, ready, Publish(who)))
  {
    var t, end := TaskOf(sys, who), Next(s, ready, Publish(who));
    QueueSubmitted(s, t.leaves, first, target, |t.leaves| - first + 1, true, sys.store, sys.latest, end.store, end.latest);
  }

  lemma CheckedAlone(s: Setup, sys: System, who: Who, target: Checkpoint, first: nat)
    requires var t := TaskOf(sys, who);
             && t.phase == Ingesting(target, first) && |t.leaves| == target.index + 1 && first <= |t.leaves|
             && !(CheckpointOf(s, t.leaves) == target && first < |t.leaves|)
    ensures SubmitsAlone(s, sys, who, target, first, Next(s, sys, Check(who)))
  {
    assert Queue(s, TaskOf(sys, who).leaves, |TaskOf(sys, who).leaves|) == [];
  }

  function Reads(who: Who, answers: seq<DbRead>): seq<Action> {
    if answers == [] then [] else [Read(who, answers[0])] + Reads(who, answers[1..])
  }

  /** And its reads ingest what the sequential submitter ingests. */
  lemma {:induction false} ReadsIngest(s: Setup, sys: System, who: Who, answers: seq<DbRead>)
    requires TaskOf(sys, who).phase.Ingesting?
    ensures var t := TaskOf(sys, who);
            var (after, ingestion) := Ingested(t.leaves, answers, t.phase.target.index);
            Run(s, sys, Reads(who, answers)) == WithTask(sys, who, Task(after, if ingestion.Broken? then Halted else t.phase))
    decreases |answers|
  {
    if answers != [] {
      var next := Next(s, sys, Read(who, answers[0]));
      RunAppend(s, sys, [Read(who, answers[0])], Reads(who, answers[1..]));
      OneStep(s, sys, Read(who, answers[0]));
      if TaskOf(next, who).phase.Halted? {
        HaltedRests(s, next, who, answers[1..]);
      } else {
        ReadsIngest(s, next, who, answers[1..]);
      }
    }
  }

  lemma {:induction false} HaltedRests(s: Setup, sys: System, who: Who, answers: seq<DbRead>)
    requires TaskOf(sys, who).phase.Halted?
    ensures Run(s, sys, Reads(who, answers)) == sys
    decreases |answers|
  {
    if answers != [] {
      RunAppend(s, sys, [Read(who, answers[0])], Reads(who, answers[1..]));
      OneStep(s, sys, Read(who, answers[0]));
      HaltedRests(s, sys, who, answers[1..]);
    }
  }

  lemma {:induction false} OtherTaskRests(s: Setup, sys: System, who: Who, n: nat)
    ensures TaskOf(Run(s, sys, FetchWrites(who, n)), Other(who)) == TaskOf(sys, Other(who))
  {
    if n > 0 {
      var before := Run(s, sys, FetchWrites(who, n - 1));
      OtherTaskRests(s, sys, who, n - 1);
      RunAppend(s, sys, FetchWrites(who, n - 1), [Fetch(who), Write(who)]);
      TwoSteps(s, before, Fetch(who), Write(who));
      WriteLeavesOther(s, Next(s, before, Fetch(who)), who);
    }
  }

  lemma WriteLeavesOther(s: Setup, sys: System, who: Who)
    ensures TaskOf(Next(s, sys, Write(who)), Other(who)) == TaskOf(sys, Other(who))
  {
  }

  lemma BackfillReadsLatest(s: Setup, chain: seq<H256>)
    requires |chain| == 3
    ensures var end := Run(s, Launch(s, chain, 2, map[], None),
                           [Read(Backfill, Found(chain[0])), Read(Backfill, Found(chain[1]))] + SubmitActions(Backfill, 2));
            && end.backfill == Task(chain[..2], Publishing(0, 0)) && end.tip == Task(chain[..2], Idle)
            && end.latest == None
  {
    var start := Launch(s, chain, 2, map[], None);
    var reading := [Read(Backfill, Found(chain[0])), Read(Backfill, Found(chain[1]))];
    TwoSteps(s, start, reading[0], reading[1]);
    var ready := Run(s, start, reading);
    assert ready.backfill.leaves == chain[..2];
    RunAppend(s, start, reading, SubmitActions(Backfill, 2));
    SubmitReadsLatest(s, ready, Backfill, 0, 2);
  }

  lemma TipReads(s: Setup, chain: seq<H256>, sys: System)
    requires |chain| == 3 && sys.tip == Task(chain[..2], Idle)
    ensures var target := CheckpointOf(s, chain);
            Next(s, Next(s, sys, Observe(target)), Read(Tip, Found(chain[2])))
            == sys.(tip := Task(chain, Ingesting(target, 2)))
  {
    assert chain[..2] + [chain[2]] == chain;
  }

  lemma TipPublishes(s: Setup, chain: seq<H256>, sys: System)
    requires |chain| == 3 && sys.tip == Task(chain[..2], Idle) && sys.latest == None
    ensures var tip := [Observe(CheckpointOf(s, chain)), Read(Tip, Found(chain[2]))] + SubmitActions(Tip, 1) + [Publish(Tip)];
            Run(s, sys, tip).latest == Some(2) && Run(s, sys, tip).backfill == sys.backfill
  {
    var reading := [Observe(CheckpointOf(s, chain)), Read(Tip, Found(chain[2]))];
    TwoSteps(s, sys, reading[0], reading[1]);
    var ready := Next(s, Next(s, sys, reading[0]), reading[1]);
    TipReads(s, chain, sys);
    RunAppend(s, sys, reading, SubmitActions(Tip, 1));
    RunAppend(s, sys, reading + SubmitActions(Tip, 1), [Publish(Tip)]);
    SubmitReadsLatest(s, ready, Tip, 2, 1);
    OneStep(s, Run(s, sys, reading + SubmitActions(Tip, 1)), Publish(Tip));
  }
}
