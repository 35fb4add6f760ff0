/** The submitters get there: under any interleaving, as long as the database serves the chain's leaves
    and nothing fails, a task takes a bounded number of steps to store all it has set out for. */
module SubmitterProgress {
  import opened Wrappers
  import opened Hashing
  import opened Checkpoints
  import opened Submitters
  import opened SubmitterRuns

  /** A task on its round from `first` to `n` leaves: its leaves are the chain's, and all it has gone past
      is stored. */
  ghost predicate OnItsWay(s: Setup, chain: seq<H256>, first: nat, n: nat, t: Task, store: map<nat, SignedCheckpoint>)
    requires first <= n && 0 < n <= |chain|
  {
    && first <= |t.leaves| <= n && t.leaves == chain[..|t.leaves|]
    && match t.phase
       case Ingesting(target, from) => target == CheckpointOf(s, chain[..n]) && from == first
       case Signing(from, next, absent) =>
         && |t.leaves| == n && from == first <= next && (if absent then next < n else next <= n)
         && forall k :: first <= k < next ==> k in store
       case Publishing(_, _) => |t.leaves| == n && forall k :: first <= k < n ==> k in store
       case Idle => |t.leaves| == n && forall k :: first <= k < n ==> k in store
       case Halted => false
  }

  /** The steps that can be left: a read for each leaf, the check, a fetch and a write for each item of
      the queue, and reading and publishing the latest index. */
  function StepsLeft(first: nat, n: nat, t: Task): int {
    match t.phase
    case Ingesting(_, _) => n - |t.leaves| + 1 + 2 * (n - first) + 2
    case Signing(_, next, absent) => 2 * (n - next) - (if absent then 1 else 0) + 2
    case Publishing(_, _) => 1
    case Idle => 0
    case Halted => 0
  }

  /** The one kind of step a task on its round is ready for; a read moves it on if it finds the leaf. */
  predicate MovesOn(who: Who, t: Task, action: Action) {
    && !action.Observe? && action.who == who
    && match t.phase
       case Ingesting(target, _) =>
         if |t.leaves| <= target.index then action.Read? && action.answer.Found? else action.Check?
       case Signing(_, next, absent) =>
         if next >= |t.leaves| then action.ReadLatest? else if absent then action.Write? else action.Fetch?
       case Publishing(_, _) => action.Publish?
       case _ => false
  }

  /** Nothing fails for the task, what it is served is the chain's, and if it is done it does not set out
      again. The other task may do what it likes. */
  ghost predicate Serves(who: Who, chain: seq<H256>, t: Task, action: Action) {
    Actor(action) == who ==>
      && !action.Fail?
      && (action.Observe? ==> !t.phase.Idle?)
      && (action.Read? ==> !action.answer.DbError?
                           && (action.answer.Found? && |t.leaves| < |chain| ==> action.answer.messageId == chain[|t.leaves|]))
  }

  ghost predicate AllServe(s: Setup, who: Who, chain: seq<H256>, start: System, actions: seq<Action>) {
    forall i :: 0 <= i < |actions| ==> Serves(who, chain, TaskOf(Run(s, start, actions[..i]), who), actions[i])
  }

  /** How many of the actions moved the task on. */
  function Moves(s: Setup, who: Who, start: System, actions: seq<Action>): nat {
    if actions == [] then
      0
    else
      var before, last := actions[..|actions| - 1], actions[|actions| - 1];
      Moves(s, who, start, before) + if MovesOn(who, TaskOf(Run(s, start, before), who), last) then 1 else 0
  }

  /** A step of the task's own. */
  lemma OwnStep(
    s: Setup, chain: seq<H256>, first: nat, n: nat, t: Task, store: map<nat, SignedCheckpoint>, latest: Option<nat>,
    action: Action
  )
    requires first <= n && 0 < n <= |chain| && OnItsWay(s, chain, first, n, t, store)
    requires Serves(Actor(action), chain, t, action) && !action.Write? && !action.Publish?
    ensures var t' := TaskAfter(s, t, store, latest, action);
            && OnItsWay(s, chain, first, n, t', store)
            && if MovesOn(Actor(action), t, action) then StepsLeft(first, n, t') < StepsLeft(first, n, t) else t' == t
  {
    if action.Read? && action.answer.Found? && |t.leaves| < n {
      assert chain[..|t.leaves|] + [chain[|t.leaves|]] == chain[..|t.leaves| + 1];
    }
  }

  /** A step of either task: the task in question stays on its way, and either it is moved on, and fewer
      steps are left, or it stays as it is. An item that is in the store already takes no write. */
  lemma StepCounts(s: Setup, who: Who, chain: seq<H256>, first: nat, n: nat, sys: System, action: Action)
    requires first <= n && 0 < n <= |chain|
    requires OnItsWay(s, chain, first, n, TaskOf(sys, who), sys.store) && Serves(who, chain, TaskOf(sys, who), action)
    ensures var t, after := TaskOf(sys, who), Next(s, sys, action);
            && OnItsWay(s, chain, first, n, TaskOf(after, who), after.store)
            && if MovesOn(who, t, action) then StepsLeft(first, n, TaskOf(after, who)) < StepsLeft(first, n, t)
               else TaskOf(after, who) == t
  {
    if Actor(action) == who && !action.Write? && !action.Publish? {
      OwnStep(s, chain, first, n, TaskOf(sys, who), sys.store, sys.latest, action);
    }
  }

  lemma {:induction false} MovesCount(
    s: Setup, who: Who, chain: seq<H256>, first: nat, n: nat, start: System, actions: seq<Action>
  )
    requires first <= n && 0 < n <= |chain| && OnItsWay(s, chain, first, n, TaskOf(start, who), start.store)
    requires AllServe(s, who, chain, start, actions)
    ensures var end := Run(s, start, actions);
            && OnItsWay(s, chain, first, n, TaskOf(end, who), end.store)
            && 0 <= StepsLeft(first, n, TaskOf(end, who))
                 <= StepsLeft(first, n, TaskOf(start, who)) - Moves(s, who, start, actions)
    decreases |actions|
  {
    if actions != [] {
      var before := actions[..|actions| - 1];
      forall i | 0 <= i < |before|
        ensures Serves(who, chain, TaskOf(Run(s, start, before[..i]), who), before[i])
      {
        assert before[..i] == actions[..i];
      }
      MovesCount(s, who, chain, first, n, start, before);
      StepCounts(s, who, chain, first, n, Run(s, start, before), actions[|actions| - 1]);
    }
  }

  /** The step that moves a task on, with the chain's next leaf for a read. */
  function NextMove(who: Who, chain: seq<H256>, t: Task): Action {
    match t.phase
    case Ingesting(target, _) =>
      if |t.leaves| <= target.index && |t.leaves| < |chain| then Read(who, Found(chain[|t.leaves|])) else Check(who)
    case Signing(_, next, absent) =>
      if next >= |t.leaves| then ReadLatest(who) else if absent then Write(who) else Fetch(who)
    case _ => Publish(who)
  }

  /** Whatever the tip task does in between, the backfill is moved on at most 3n + 3 times. Until it is
      done there is a step that moves it on: to read the next leaf, if the database has it, or one that
      needs nothing from outside. And once it is done, every index below n is stored. */
  lemma BackfillCompletes(s: Setup, w: World, actions: seq<Action>)
    requires GoodWorld(s, w)
    requires AllServe(s, Backfill, w.chain, Launch(s, w.chain, w.n, w.store, w.latest), actions)
    ensures var start := Launch(s, w.chain, w.n, w.store, w.latest);
            var end := Run(s, start, actions);
            var next := NextMove(Backfill, w.chain, end.backfill);
            && Moves(s, Backfill, start, actions) <= 3 * w.n + 3
            && (if end.backfill.phase.Idle? then forall k :: 0 <= k < w.n ==> k in end.store
                else MovesOn(Backfill, end.backfill, next) && Serves(Backfill, w.chain, end.backfill, next))
  {
    MovesCount(s, Backfill, w.chain, 0, w.n, Launch(s, w.chain, w.n, w.store, w.latest), actions);
  }

  /** The tip task takes up any checkpoint of the chain that is not behind its tree, however far ahead. Then,
      whatever the backfill does in between, it gets done in the same way: its tree has grown to the
      checkpoint, and every index from where it was is stored. */
  lemma TipRoundCompletes(s: Setup, chain: seq<H256>, m: nat, sys: System, target: Checkpoint, actions: seq<Action>)
    requires Genuine(s, chain, target) && m <= target.index + 1
    requires sys.tip == Task(chain[..m], Idle)
    requires AllServe(s, Tip, chain, Next(s, sys, Observe(target)), actions)
    ensures var start := Next(s, sys, Observe(target));
            var end := Run(s, start, actions);
            var next := NextMove(Tip, chain, end.tip);
            && Moves(s, Tip, start, actions) <= 3 * (target.index + 1 - m) + 3
            && (if end.tip.phase.Idle? then
                  end.tip.leaves == chain[..target.index + 1] && forall k :: m <= k <= target.index ==> k in end.store
                else MovesOn(Tip, end.tip, next) && Serves(Tip, chain, end.tip, next))
  {
    MovesCount(s, Tip, chain, m, target.index + 1, Next(s, sys, Observe(target)), actions);
  }

  /** A checkpoint behind its tree it skips. */
  lemma TipSkipsWhatIsBehind(s: Setup, sys: System, target: Checkpoint)
    requires target.index + 1 < |sys.tip.leaves|
    ensures Next(s, sys, Observe(target)) == sys
  {
  }
}
