/** The rate-limited cursor and its persisted watermark, across crashes and restarts. */
module RateLimited {
  import opened Wrappers
  import opened SyncCursors
  import opened SyncSteps
  import opened SyncRuns
  import opened SyncObjects

  datatype Limited = Limited(sync: Sync, tip: nat, maxSequence: Option<nat>)

  /** What one `next_action` meets: whether the tip was updated in the last 30 seconds, the finalized
      block if it can be read, and the count and tip. */
  datatype Ambient = Ambient(recentlyUpdated: bool, finalized: Option<nat>, reading: Reading)

  datatype LimitedAction = Errored | Sleeping | Querying(range: Range)

  function NewLimited(chunkSize: nat, initialHeight: nat, mode: IndexMode, count: Option<nat>, tip: nat): Limited {
    Limited(Sync(chunkSize, initialHeight, initialHeight, mode, 0, Forward), tip, count)
  }

  function NextLimited(l: Limited, env: Ambient): (Limited, LimitedAction) {
    if l.sync.mode.BySequence? && l.maxSequence.None? then
      (l, Errored)
    else if l.sync.nextBlock + l.sync.chunkSize < l.tip then
      Advance(l, env.reading)
    else if env.recentlyUpdated then
      (l, Sleeping)
    else if env.finalized.None? then
      (l, Errored)
    else
      Advance(l.(tip := env.finalized.value), env.reading)
  }

  /** The part of `next_action` behind the rate limit. */
  function Advance(l: Limited, reading: Reading): (Limited, LimitedAction) {
    match reading
    case Unavailable => (l, Errored)
    case Reading(count, tip) =>
      var (st, next) := GetNextRange(l.sync, count, tip);
      (Limited(st, tip, count), match next case Failed => Errored case Nothing => Sleeping case Query(range) => Querying(range))
  }

  /** The watermark stored after a query: one chunk short of the next block, but not before the start. */
  function Watermark(st: Sync): nat {
    var behind := SaturatingSub(st.nextBlock, st.chunkSize);
    if st.startBlock > behind then st.startBlock else behind
  }

  /** Whether the cursor may go on: a whole chunk fits below the tip it knows, or the tip is refreshed. */
  predicate MayGoOn(l: Limited, env: Ambient) {
    l.sync.nextBlock + l.sync.chunkSize < l.tip || (!env.recentlyUpdated && env.finalized.Some?)
  }

  /** What the cursor does, exactly. Near the tip it waits until the tip may be refreshed, and nothing moves;
      otherwise it asks for at most the next chunk, up to the tip it reads, if there is anything up to it. */
  lemma ActsExactly(l: Limited, env: Ambient)
    requires l.sync.direction.Forward?
    ensures var (l', action) := NextLimited(l, env);
            var lacksCount := l.sync.mode.BySequence? && l.maxSequence.None?;
            && (lacksCount || !MayGoOn(l, env) ==>
                  l' == l && action == if !lacksCount && env.recentlyUpdated then Sleeping else Errored)
            && (!lacksCount && MayGoOn(l, env) && env.reading.Unavailable? ==>
                  && action == Errored
                  && l' == l.(tip := if l.sync.nextBlock + l.sync.chunkSize < l.tip then l.tip else env.finalized.value))
            && (!lacksCount && MayGoOn(l, env) && env.reading.Reading? ==>
                  && l'.tip == env.reading.tip && l'.maxSequence == env.reading.count
                  && AsksUpTo(l.sync, env.reading.count, env.reading.tip, action, l'.sync))
  {
  }

  ghost predicate AsksUpTo(st: Sync, count: Option<nat>, tip: nat, action: LimitedAction, after: Sync) {
    if st.mode.ByBlock? then
      && (action.Querying? <==> st.nextBlock <= tip) && !action.Errored?
      && (action.Querying? ==> ForwardBlocks(st, tip, action.range, after))
    else if count.None? then
      action == Errored && after == st
    else
      && (action.Querying? <==> st.nextSequence < count.value) && !action.Errored?
      && (action.Querying? ==> ForwardSequences(st, count.value, action.range, after))
      && (action.Sleeping? ==> after == st)
  }

  /** A cursor launched with a count, in sequence mode, asks for the first sequences as soon as it may go on
      and there are any; in block mode, for the blocks from where it was launched. */
  lemma LaunchedAsksFirst(l: Limited, env: Ambient, chunkSize: nat, from: nat, mode: IndexMode, count: Option<nat>, tip: nat)
    requires l == NewLimited(chunkSize, from, mode, count, tip) && env.reading.Reading?
    requires from + chunkSize < tip || (!env.recentlyUpdated && env.finalized.Some?)
    requires if mode.BySequence? then count.Some? && env.reading.count.Some? && env.reading.count.value > 0
             else from <= env.reading.tip
    ensures var action := NextLimited(l, env).1;
            && action.Querying?
            && if mode.BySequence? then
                 action.range == Range(0, if env.reading.count.value > 100 then 100 else env.reading.count.value - 1)
               else
                 action.range == Range(from, if from + chunkSize <= env.reading.tip then from + chunkSize else env.reading.tip)
  {
    ActsExactly(l, env);
  }

  /** The watermark written is one chunk behind, so that a restart repeats no more than that; or it is the
      start, while the cursor is no further than one chunk from it. */
  lemma WatermarkIsOneChunkBehind(st: Sync)
    ensures if st.nextBlock > st.startBlock + st.chunkSize then Watermark(st) + st.chunkSize == st.nextBlock
            else Watermark(st) == st.startBlock
  {
  }

  class WatermarkStore {
    var watermark: Option<nat>
    constructor ()
      ensures watermark == None
    {
      watermark := None;
    }
  }

  class RateLimitedCursor {
    const state: SyncState
    const store: WatermarkStore
    var tip: nat
    var maxSequence: Option<nat>

    function View(): Limited
      reads this, state
    {
      Limited(state.View(), tip, maxSequence)
    }

    /** Restarts from the stored watermark, or from the configured block if there is none. */
    constructor (store: WatermarkStore, configuredFrom: nat, chunkSize: nat, mode: IndexMode, count: Option<nat>, tip: nat)
      ensures this.store == store && fresh(state) && state.direction.Forward?
      ensures View() == NewLimited(chunkSize, store.watermark.GetOr(configuredFrom), mode, count, tip)
    {
      var from := store.watermark.GetOr(configuredFrom);
      state := new SyncState(Sync(chunkSize, from, from, mode, 0, Forward));
      this.store, this.tip, this.maxSequence := store, tip, count;
    }

    /** True if the cursor has to wait or has failed; false if it may go on. */
    method GetRateLimit(env: Ambient) returns (limit: Option<LimitedAction>)
      modifies this`tip
      ensures state.View() == old(state.View())
      ensures if state.nextBlock + state.chunkSize < old(tip) then limit == None && tip == old(tip)
              else if env.recentlyUpdated then limit == Some(Sleeping) && tip == old(tip)
              else if env.finalized.None? then limit == Some(Errored) && tip == old(tip)
              else limit == None && tip == env.finalized.value
    {
      if state.nextBlock + state.chunkSize < tip {
        return None;
      }
      if env.recentlyUpdated {
        return Some(Sleeping);
      }
      match env.finalized {
        case Some(finalized) =>
          tip := finalized;
          return None;
        case None =>
          return Some(Errored);
      }
    }

    method Next(env: Ambient) returns (action: LimitedAction)
      modifies this`tip, this`maxSequence, state
      ensures (View(), action) == NextLimited(old(View()), env)
    {
      if state.mode.BySequence? && maxSequence.None? {
        return Errored;
      }
      var limit := GetRateLimit(env);
      if limit.Some? {
        return limit.value;
      }
      if env.reading.Unavailable? {
        return Errored;
      }
      tip, maxSequence := env.reading.tip, env.reading.count;
      var next := state.GetRange(maxSequence, tip);
      match next {
        case Query(range) => return Querying(range);
        case Failed => return Errored;
        case Nothing => return Sleeping;
      }
    }

    method UpdateWatermark()
      modifies store
      ensures store.watermark == Some(Watermark(state.View()))
    {
      var behind := SaturatingSub(state.nextBlock, state.chunkSize);
      store.watermark := Some(if state.startBlock > behind then state.startBlock else behind);
    }
  }

  // ----- Runs with crashes -----

  /** Where a turn of the loop is cut off: before anything is stored, while storing (only the logs in
      `kept` got there), before the watermark is written, or not at all. */
  datatype Cut = BeforeStore | WhileStoring(kept: set<nat>) | BeforeWatermark | Uncut

  datatype Event = Launch(count: Option<nat>, tip: nat) | Turn(env: Ambient, cut: Cut)

  datatype Process = Down | Up(limited: Limited)

  /** `stored`: which logs of the chain are in the database. */
  datatype Machine = Machine(process: Process, stored: set<nat>, watermark: Option<nat>)

  /** The blocks of the chain's logs, and the settings. */
  datatype Settings = Settings(chain: seq<nat>, from: nat, chunkSize: nat, mode: IndexMode)

  function Fetched(s: Settings, range: Range): set<nat> {
    set k | 0 <= k < |s.chain| && InRange(s.chain, s.mode, range, k)
  }

  function Happen(s: Settings, m: Machine, e: Event): Machine {
    match e
    case Launch(count, tip) =>
      m.(process := Up(NewLimited(s.chunkSize, m.watermark.GetOr(s.from), s.mode, count, tip)))
    case Turn(env, cut) =>
      if m.process.Down? then
        m
      else
        var (l, action) := NextLimited(m.process.limited, env);
        if action.Querying? then Digested(s, m, l, Fetched(s, action.range), cut) else m.(process := Up(l))
  }

  /** Fetch, store, write the watermark; cut off somewhere. */
  function Digested(s: Settings, m: Machine, l: Limited, fetched: set<nat>, cut: Cut): Machine {
    match cut
    case BeforeStore => m.(process := Down)
    case WhileStoring(kept) => m.(process := Down, stored := m.stored + fetched * kept)
    case BeforeWatermark => m.(process := Down, stored := m.stored + fetched)
    case Uncut => Machine(Up(l), m.stored + fetched, Some(Watermark(l.sync)))
  }

  function RunEvents(s: Settings, m: Machine, events: seq<Event>): Machine {
    if events == [] then m else Happen(s, RunEvents(s, m, events[..|events| - 1]), events[|events| - 1])
  }

  /** Every log from the configured start up to (not including) a block is stored. */
  ghost predicate CoveredTo(s: Settings, stored: set<nat>, block: nat) {
    forall k :: 0 <= k < |s.chain| && s.from <= s.chain[k] < block ==> k in stored
  }

  /** Where a launch would start, or did. */
  function Base(s: Settings, m: Machine): nat {
    if m.process.Up? then m.process.limited.sync.startBlock else m.watermark.GetOr(s.from)
  }

  ghost predicate Inv(s: Settings, m: Machine) {
    && CoveredTo(s, m.stored, m.watermark.GetOr(s.from)) && s.from <= Base(s, m) <= m.watermark.GetOr(s.from)
    && (m.process.Up? ==>
          var st := m.process.limited.sync;
          && st == Sync(s.chunkSize, st.startBlock, st.nextBlock, s.mode, st.nextSequence, Forward)
          && CoveredTo(s, m.stored, st.startBlock) && CoveredTo(s, m.stored, st.nextBlock)
          && (s.mode.BySequence? ==> st.nextBlock == st.startBlock))
  }

  lemma AdvanceCovers(s: Settings, m: Machine, l: Limited, reading: Reading)
    requires Inv(s, m) && m.process.Up? && l.sync == m.process.limited.sync
    ensures var (l', action) := Advance(l, reading);
            && l'.sync == l.sync.(nextBlock := l'.sync.nextBlock, nextSequence := l'.sync.nextSequence)
            && (s.mode.BySequence? ==> l'.sync.nextBlock == l'.sync.startBlock)
            && CoveredTo(s, if action.Querying? then m.stored + Fetched(s, action.range) else m.stored, l'.sync.nextBlock)
  {
    var (l', action) := Advance(l, reading);
    if action.Querying? && s.mode.ByBlock? {
      forall k | 0 <= k < |s.chain| && s.from <= s.chain[k] < l'.sync.nextBlock
        ensures k in m.stored + Fetched(s, action.range)
      {
        if s.chain[k] >= l.sync.nextBlock {
          assert InRange(s.chain, s.mode, action.range, k);
        }
      }
    }
  }

  /** What a turn digests, wherever it is cut off. */
  lemma DigestedKeepsInv(s: Settings, m: Machine, l: Limited, fetched: set<nat>, cut: Cut)
    requires Inv(s, m) && m.process.Up?
    requires l.sync == m.process.limited.sync.(nextBlock := l.sync.nextBlock, nextSequence := l.sync.nextSequence)
    requires CoveredTo(s, m.stored + fetched, l.sync.nextBlock)
    requires s.mode.BySequence? ==> l.sync.nextBlock == l.sync.startBlock
    ensures Inv(s, Digested(s, m, l, fetched, cut)) && Base(s, Digested(s, m, l, fetched, cut)) >= Base(s, m)
  {
  }

  lemma AdvanceKeepsInv(s: Settings, m: Machine, l: Limited, reading: Reading, cut: Cut)
    requires Inv(s, m) && m.process.Up? && l.sync == m.process.limited.sync
    ensures var (l', action) := Advance(l, reading);
            var after := if action.Querying? then Digested(s, m, l', Fetched(s, action.range), cut) else m.(process := Up(l'));
            Inv(s, after) && Base(s, after) >= Base(s, m)
  {
    var (l', action) := Advance(l, reading);
    AdvanceCovers(s, m, l, reading);
    if action.Querying? {
      DigestedKeepsInv(s, m, l', Fetched(s, action.range), cut);
    }
  }

  lemma EventKeepsInv(s: Settings, m: Machine, e: Event)
    requires Inv(s, m)
    ensures Inv(s, Happen(s, m, e))
    ensures Base(s, Happen(s, m, e)) >= Base(s, m)
  {
    if e.Turn? && m.process.Up? {
      var l := m.process.limited;
      AdvanceKeepsInv(s, m, l, e.env.reading, e.cut);
      if e.env.finalized.Some? {
        AdvanceKeepsInv(s, m, l.(tip := e.env.finalized.value), e.env.reading, e.cut);
      }
    }
  }

  lemma {:induction false} RunKeepsInv(s: Settings, stored: set<nat>, events: seq<Event>)
    ensures Inv(s, RunEvents(s, Machine(Down, stored, None), events))
    decreases |events|
  {
    if events != [] {
      RunKeepsInv(s, stored, events[..|events| - 1]);
      EventKeepsInv(s, RunEvents(s, Machine(Down, stored, None), events[..|events| - 1]), events[|events| - 1]);
    }
  }

  /** Crash safety: at any point of any run, every log from the configured start up to the watermark is
      stored, so a launch from the watermark misses nothing; nor does what is still to be scanned. */
  lemma RestartLosesNothing(s: Settings, stored: set<nat>, events: seq<Event>, count: Option<nat>, tip: nat, k: nat)
    ensures var m := RunEvents(s, Machine(Down, stored, None), events);
            var launched := Happen(s, m, Launch(count, tip)).process.limited.sync;
            k < |s.chain| && s.from <= s.chain[k] && k !in m.stored ==>
              && s.chain[k] >= launched.nextBlock
              && (m.process.Up? ==> s.chain[k] >= m.process.limited.sync.nextBlock)
  {
    RunKeepsInv(s, stored, events);
  }

  /** However the tip recedes and wherever the process dies, launches never start earlier than before. */
  lemma {:induction false} RestartsNeverGoBack(s: Settings, stored: set<nat>, events: seq<Event>, n: nat)
    requires n <= |events|
    ensures Base(s, RunEvents(s, Machine(Down, stored, None), events[..n]))
            <= Base(s, RunEvents(s, Machine(Down, stored, None), events))
    decreases |events|
  {
    if n == |events| {
      assert events[..n] == events;
    } else {
      var before := events[..|events| - 1];
      assert before[..n] == events[..n];
      RestartsNeverGoBack(s, stored, before, n);
      RunKeepsInv(s, stored, before);
      EventKeepsInv(s, RunEvents(s, Machine(Down, stored, None), before), events[|events| - 1]);
    }
  }
}
