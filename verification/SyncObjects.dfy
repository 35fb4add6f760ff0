/** The cursors and the sync loop as objects that change in place, each method tied to the step
    functions of `SyncCursors` and the runs of `SyncRuns`. */
module SyncObjects {
  import opened Wrappers
  import opened SyncCursors
  import opened SyncRuns

  class LogStore {
    var db: Db

    constructor (db: Db)
      ensures this.db == db
    {
      this.db := db;
    }

    /** `failing`: the reads that fail. */
    method RetrieveBySequence(sequence: nat, failing: Failing) returns (found: bool)
      ensures found <==> sequence in Seen(db, failing)
    {
      found := sequence in db && sequence !in failing.logs;
    }

    method RetrieveLogBlockNumber(sequence: nat, failing: set<nat>) returns (block: Option<nat>)
      ensures block == BlockOf(Seen(db, Failing({}, failing)), sequence)
    {
      block := if sequence !in db || sequence in failing then None else db[sequence];
    }

    /** Stores the logs that are not there yet, each in two writes, the log and then its block. `failAt`
        is the log at which the store fails, before the first write or, if `torn`, between the two;
        `unread` are those of which the look-up fails. */
    method Store(logs: seq<Log>, unread: set<nat>, failAt: nat, torn: bool) returns (ok: bool)
      modifies this
      ensures ok <==> failAt >= |logs|
      ensures db == if ok then StoreLogs(old(db), logs, unread) else StorePart(old(db), logs, unread, failAt, torn)
    {
      for i := 0 to |logs|
        invariant i <= failAt
        invariant db == StoreLogs(old(db), logs[..i], unread)
      {
        assert logs[..i + 1][..i] == logs[..i];
        if i == failAt && !torn {
          return false;
        }
        if logs[i].sequence !in db || logs[i].sequence in unread {
          if logs[i].sequence !in db {
            db := db[logs[i].sequence := None];
          }
          if i == failAt {
            return false;
          }
          db := db[logs[i].sequence := Some(logs[i].block)];
        }
        if i == failAt {
          return false;
        }
      }
      assert logs[..|logs|] == logs;
      return true;
    }
  }

  class SyncState {
    const chunkSize: nat
    const startBlock: nat
    const mode: IndexMode
    const direction: Direction
    var nextBlock: nat
    var nextSequence: nat

    function View(): Sync
      reads this
    {
      Sync(chunkSize, startBlock, nextBlock, mode, nextSequence, direction)
    }

    constructor (st: Sync)
      ensures View() == st
    {
      chunkSize, startBlock, mode, direction := st.chunkSize, st.startBlock, st.mode, st.direction;
      nextBlock, nextSequence := st.nextBlock, st.nextSequence;
    }

    method GetBlockRange(tip: nat) returns (range: Range)
      modifies this`nextBlock
      ensures (View(), range) == BlockRange(old(View()), tip)
    {
      if direction.Forward? {
        var from := nextBlock;
        var to := from + chunkSize;
        to := Min(to, tip);
        nextBlock := to + 1;
        return Range(from, to);
      } else {
        var to := nextBlock;
        var from := SaturatingSub(to, chunkSize);
        nextBlock := SaturatingSub(from, 1);
        return Range(from, to);
      }
    }

    method GetSequenceRange(maxSequence: nat) returns (range: Option<Range>)
      modifies this`nextSequence
      ensures (View(), range) == SequenceRange(old(View()), maxSequence)
    {
      if direction.Forward? {
        var start := nextSequence;
        var end := start + MAX_SEQUENCE_RANGE;
        if nextSequence >= maxSequence {
          return None;
        }
        end := Min(end, SaturatingSub(maxSequence, 1));
        nextSequence := end + 1;
        return Some(Range(start, end));
      } else {
        var end := nextSequence;
        var start := SaturatingSub(end, MAX_SEQUENCE_RANGE);
        nextSequence := SaturatingSub(start, 1);
        return Some(Range(start, end));
      }
    }

    method GetRange(maxSequence: Option<nat>, tip: nat) returns (next: NextRange)
      modifies this`nextBlock, this`nextSequence
      ensures (View(), next) == GetNextRange(old(View()), maxSequence, tip)
    {
      var range;
      if mode.ByBlock? {
        range := GetBlockRange(tip);
      } else {
        if maxSequence.None? {
          return Failed;
        }
        var found := GetSequenceRange(maxSequence.value);
        if found.None? {
          return Nothing;
        }
        range := found.value;
      }
      if range.from > range.to {
        return Nothing;
      }
      return Query(range);
    }

    /** `relevant`: the logs that passed the cursor's filter. */
    method UpdateFrom(relevant: seq<Log>, prevSequence: nat, store: LogStore, failing: set<nat>)
      modifies this`nextBlock
      ensures View() ==
              if relevant != [] && !HasSequence(relevant, old(nextSequence)) then
                old(View()).(nextBlock := BlockOf(Seen(store.db, Failing({}, failing)), prevSequence).GetOr(startBlock))
              else old(View())
    {
      if relevant != [] && !exists i :: 0 <= i < |relevant| && relevant[i].sequence == nextSequence {
        var block := store.RetrieveLogBlockNumber(prevSequence, failing);
        if block.Some? {
          nextBlock := block.value;
        } else {
          nextBlock := startBlock;
        }
      }
    }

    /** Keep the logs that are relevant in this cursor's direction. */
    method Filter(logs: seq<Log>) returns (relevant: seq<Log>)
      ensures relevant != [] <==> HasRelevant(logs, direction, nextSequence)
      ensures HasSequence(relevant, nextSequence) <==> HasSequence(logs, nextSequence)
    {
      relevant := [];
      for i := 0 to |logs|
        invariant relevant != [] <==> HasRelevant(logs[..i], direction, nextSequence)
        invariant HasSequence(relevant, nextSequence) <==> HasSequence(logs[..i], nextSequence)
      {
        ghost var before := relevant;
        if (if direction.Forward? then logs[i].sequence >= nextSequence else logs[i].sequence <= nextSequence) {
          relevant := relevant + [logs[i]];
        }
        PrefixHas(logs, direction, nextSequence, i);
        assert relevant != before ==> relevant[|before|] == logs[i];
        assert forall k :: 0 <= k < |before| ==> relevant[k] == before[k];
        if HasSequence(before, nextSequence) {
          var k :| 0 <= k < |before| && before[k].sequence == nextSequence;
          assert relevant[k].sequence == nextSequence;
        }
      }
      assert logs[..|logs|] == logs;
    }
  }

  lemma PrefixHas(logs: seq<Log>, direction: Direction, sequence: nat, i: nat)
    requires i < |logs|
    ensures HasSequence(logs[..i + 1], sequence) <==> HasSequence(logs[..i], sequence) || logs[i].sequence == sequence
    ensures HasRelevant(logs[..i + 1], direction, sequence) <==>
            HasRelevant(logs[..i], direction, sequence)
            || (if direction.Forward? then logs[i].sequence >= sequence else logs[i].sequence <= sequence)
  {
    var before, after := logs[..i], logs[..i + 1];
    assert after[i] == logs[i] && forall k :: 0 <= k < i ==> after[k] == before[k];
    if HasSequence(before, sequence) {
      var k :| 0 <= k < |before| && before[k].sequence == sequence;
      assert after[k].sequence == sequence;
    }
    if HasRelevant(before, direction, sequence) {
      var k :| 0 <= k < |before|
               && if direction.Forward? then before[k].sequence >= sequence else before[k].sequence <= sequence;
      assert after[k] == before[k];
    }
  }

  class ForwardCursor {
    const state: SyncState
    const store: LogStore

    constructor (state: SyncState, store: LogStore)
      ensures this.state == state && this.store == store
    {
      this.state, this.store := state, store;
    }

    method NextForwardRange(reading: Reading, failing: Failing) returns (next: NextRange)
      modifies state
      ensures (state.View(), next) == ForwardNextRange(old(state.View()), Seen(store.db, failing), reading)
    {
      ghost var seen := Seen(store.db, failing);
      var found := store.RetrieveBySequence(state.nextSequence, failing);
      while found
        invariant found <==> state.nextSequence in seen
        invariant FastForward(state.View(), seen) == FastForward(old(state.View()), seen)
        decreases Ahead(seen, state.nextSequence), found
      {
        assert state.nextSequence in Ahead(seen, state.nextSequence) - Ahead(seen, state.nextSequence + 1);
        var block := store.RetrieveLogBlockNumber(state.nextSequence, failing.blocks);
        if block.Some? {
          state.nextBlock := block.value;
        }
        state.nextSequence := state.nextSequence + 1;
        found := store.RetrieveBySequence(state.nextSequence, failing);
      }
      if reading.Unavailable? {
        return Failed;
      }
      if reading.count.None? {
        return Nothing;
      }
      if state.nextSequence == reading.count.value {
        state.nextBlock := reading.tip;
        return Nothing;
      } else if state.nextSequence < reading.count.value {
        next := state.GetRange(reading.count, reading.tip);
      } else {
        return Nothing;
      }
    }

    method UpdateForward(logs: seq<Log>, failing: set<nat>)
      requires state.direction.Forward?
      modifies state
      ensures state.View() == Update(old(state.View()), Seen(store.db, Failing({}, failing)), logs)
    {
      var prevSequence := SaturatingSub(state.nextSequence, 1);
      var relevant := state.Filter(logs);
      state.UpdateFrom(relevant, prevSequence, store, failing);
    }
  }

  class BackwardCursor {
    const state: SyncState
    const store: LogStore
    var synced: bool

    constructor (state: SyncState, store: LogStore, synced: bool)
      ensures this.state == state && this.store == store && this.synced == synced
    {
      this.state, this.store, this.synced := state, store, synced;
    }

    method NextBackwardRange(reading: Reading, failing: Failing) returns (next: NextRange)
      modifies state, this`synced
      ensures (state.View(), synced, next)
              == BackwardNextRange(old(state.View()), old(synced), Seen(store.db, failing), reading)
    {
      ghost var seen := Seen(store.db, failing);
      while !synced
        invariant FastRewind(state.View(), synced, seen) == FastRewind(old(state.View()), old(synced), seen)
        decreases !synced, state.nextSequence
      {
        var found := store.RetrieveBySequence(state.nextSequence, failing);
        if !found {
          break;
        }
        if state.nextSequence == 0 || state.nextBlock == 0 {
          synced := true;
          break;
        }
        var block := store.RetrieveLogBlockNumber(state.nextSequence, failing.blocks);
        if block.Some? {
          state.nextBlock := block.value;
        }
        state.nextSequence := SaturatingSub(state.nextSequence, 1);
      }
      if synced {
        return Nothing;
      }
      if reading.Unavailable? {
        return Failed;
      }
      next := state.GetRange(reading.count, reading.tip);
    }

    method UpdateBackward(logs: seq<Log>, failing: set<nat>)
      requires state.direction.Backward?
      modifies state
      ensures state.View() == Update(old(state.View()), Seen(store.db, Failing({}, failing)), logs)
    {
      var prevSequence := state.nextSequence + 1;
      var relevant := state.Filter(logs);
      state.UpdateFrom(relevant, prevSequence, store, failing);
    }
  }

  class ForwardBackwardCursor {
    const forward: ForwardCursor
    const backward: BackwardCursor
    var direction: Direction

    ghost predicate Valid()
      reads this
    {
      && forward.store == backward.store && forward.state != backward.state
      && forward.state.direction.Forward? && backward.state.direction.Backward?
    }

    function View(): Cursors
      reads this, forward.state, backward, backward.state
    {
      Cursors(forward.state.View(), backward.state.View(), backward.synced, direction)
    }

    /** Created from a first reading of the count and the tip. */
    constructor (store: LogStore, chunkSize: nat, mode: IndexMode, count: nat, tip: nat)
      ensures Valid() && forward.store == store && View() == NewCursors(chunkSize, mode, count, tip)
      ensures fresh(forward.state) && fresh(backward) && fresh(backward.state)
    {
      var forwardState := new SyncState(Sync(chunkSize, tip, tip, mode, count, Forward));
      var backwardState := new SyncState(Sync(chunkSize, tip, tip, mode, SaturatingSub(count, 1), Backward));
      forward := new ForwardCursor(forwardState, store);
      backward := new BackwardCursor(backwardState, store, count == 0);
      direction := Forward;
    }

    method Next(forwardReading: Reading, forwardReads: Failing, backwardReading: Reading, backwardReads: Failing)
      returns (next: NextRange)
      requires Valid()
      modifies this`direction, forward.state, backward.state, backward`synced
      ensures Valid()
      ensures (View(), next) == NextAction(old(View()), Seen(forward.store.db, forwardReads),
                                           Seen(forward.store.db, backwardReads), forwardReading, backwardReading)
    {
      next := forward.NextForwardRange(forwardReading, forwardReads);
      if next.Failed? {
        return;
      }
      if next.Query? {
        direction := Forward;
        return;
      }
      next := backward.NextBackwardRange(backwardReading, backwardReads);
      if next.Query? {
        direction := Backward;
      }
    }

    method UpdateLogs(logs: seq<Log>, failing: set<nat>)
      requires Valid()
      modifies forward.state, backward.state
      ensures Valid() && View() == UpdateCursors(old(View()), Seen(forward.store.db, Failing({}, failing)), logs)
    {
      match direction {
        case Forward => forward.UpdateForward(logs, failing);
        case Backward => backward.UpdateBackward(logs, failing);
      }
    }
  }

  /** The sync loop, over what the environment does around each of its turns. */
  method SyncLogs(cursor: ForwardBackwardCursor, chain: seq<nat>, envs: seq<Env>) returns (stopped: bool)
    requires cursor.Valid()
    modifies cursor`direction, cursor.forward.state, cursor.backward.state, cursor.backward`synced, cursor.forward.store
    ensures cursor.Valid()
    ensures State(cursor.View(), cursor.forward.store.db, stopped)
            == Run(chain, State(old(cursor.View()), old(cursor.forward.store.db), false), envs)
  {
    var store := cursor.forward.store;
    ghost var start := State(cursor.View(), store.db, false);
    for i := 0 to |envs|
      invariant cursor.Valid()
      invariant State(cursor.View(), store.db, false) == Run(chain, start, envs[..i])
    {
      assert envs[..i + 1][..i] == envs[..i];
      var env := envs[i];
      store.db := Inserted(chain, store.db, env.inserted, env.torn);
      var next := cursor.Next(env.forward, env.forwardReads, env.backward, env.backwardReads);
      if next.Query? {
        if env.fault.FetchFails? {
          StoppedStays(chain, start, envs, i + 1);
          return true;
        }
        var logs := FetchLogs(chain, cursor.forward.state.mode, next.range, env.dropped, |chain|);
        var failAt, torn := |logs|, false;
        if env.fault.StoreFails? {
          failAt, torn := env.fault.at, env.fault.torn;
        }
        var ok := store.Store(logs, env.unread, failAt, torn);
        if !ok {
          StoppedStays(chain, start, envs, i + 1);
          return true;
        }
        cursor.UpdateLogs(logs, env.updateReads);
      }
    }
    assert envs[..|envs|] == envs;
    return false;
  }

  lemma {:induction false} StoppedStays(chain: seq<nat>, st: State, envs: seq<Env>, i: nat)
    requires i <= |envs| && Run(chain, st, envs[..i]).stopped
    ensures Run(chain, st, envs) == Run(chain, st, envs[..i])
    decreases |envs|
  {
    if i == |envs| {
      assert envs[..i] == envs;
    } else {
      var before := envs[..|envs| - 1];
      assert before[..i] == envs[..i];
      StoppedStays(chain, st, before, i);
    }
  }
}
