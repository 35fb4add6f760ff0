/** Two rate-limited cursors over different logs of one chain that share one watermark, as the database
    lets them: when a launch from it loses nothing of either. */
module SharedWatermarks {
  import opened Wrappers
  import opened SyncCursors
  import opened RateLimited

  /** The two cursors of one agent, each with its own logs; both machines have the watermark. */
  datatype Agent = Agent(first: Machine, second: Machine)

  datatype Which = First | Second

  /** The two are launched together, and a turn that is cut off brings both down. */
  datatype SharedEvent =
    | LaunchBoth(count: Option<nat>, tip: nat)
    | TurnOf(which: Which, env: Ambient, cut: Cut)

  /** What a turn of one cursor makes of the other: it sees the new watermark, and goes down with it. */
  function Beside(other: Machine, before: Machine, after: Machine): Machine {
    other.(watermark := after.watermark, process := if before.process.Up? && after.process.Down? then Down else other.process)
  }

  function HappenShared(s: Settings, t: Settings, m: Agent, e: SharedEvent): Agent {
    match e
    case LaunchBoth(count, tip) => Agent(Happen(s, m.first, Launch(count, tip)), Happen(t, m.second, Launch(count, tip)))
    case TurnOf(First, env, cut) =>
      var first := Happen(s, m.first, Turn(env, cut));
      Agent(first, Beside(m.second, m.first, first))
    case TurnOf(Second, env, cut) =>
      var second := Happen(t, m.second, Turn(env, cut));
      Agent(Beside(m.first, m.second, second), second)
  }

  function RunShared(s: Settings, t: Settings, m: Agent, events: seq<SharedEvent>): Agent {
    if events == [] then m
    else HappenShared(s, t, RunShared(s, t, m, events[..|events| - 1]), events[|events| - 1])
  }

  /** Neither cursor is ahead of the other by more blocks than its chunk size. */
  ghost predicate InStep(m: Agent) {
    m.first.process.Up? && m.second.process.Up? ==>
      var a, b := m.first.process.limited.sync, m.second.process.limited.sync;
      a.nextBlock <= b.nextBlock + a.chunkSize && b.nextBlock <= a.nextBlock + b.chunkSize
  }

  ghost predicate AgentInv(s: Settings, t: Settings, m: Agent) {
    && Inv(s, m.first) && Inv(t, m.second)
    && m.first.watermark == m.second.watermark
    && (m.first.process.Up? <==> m.second.process.Up?)
    && (m.first.process.Up? ==>
          m.first.process.limited.sync.startBlock == m.second.process.limited.sync.startBlock)
  }

  /** What a turn of `mine` does to `other`, if the two are in step when it is over. */
  lemma OtherKeepsInv(s: Settings, t: Settings, mine: Machine, other: Machine, env: Ambient, cut: Cut)
    requires s.from == t.from && Inv(s, mine) && Inv(t, other) && mine.watermark == other.watermark
    requires mine.process.Up? && other.process.Up?
    requires mine.process.limited.sync.startBlock == other.process.limited.sync.startBlock
    requires var after := Happen(s, mine, Turn(env, cut));
             after.process.Up? ==>
               after.process.limited.sync.nextBlock <= other.process.limited.sync.nextBlock + after.process.limited.sync.chunkSize
    ensures var after := Happen(s, mine, Turn(env, cut));
            && Inv(s, after) && Inv(t, Beside(other, mine, after))
            && (after.process.Up? ==> after.process.limited.sync.startBlock == mine.process.limited.sync.startBlock)
  {
    var after := Happen(s, mine, Turn(env, cut));
    EventKeepsInv(s, mine, Turn(env, cut));
    WatermarkAfter(s, mine, env, cut);
    if after.watermark != mine.watermark {
      var st := other.process.limited.sync;
      assert after.watermark.value <= st.nextBlock || after.watermark.value <= st.startBlock;
    }
  }

  /** A turn leaves the watermark, or writes the one of where it has got to. */
  lemma WatermarkAfter(s: Settings, m: Machine, env: Ambient, cut: Cut)
    requires Inv(s, m) && m.process.Up?
    ensures var after := Happen(s, m, Turn(env, cut));
            && (after.watermark == m.watermark
                || (after.process.Up? && after.watermark == Some(Watermark(after.process.limited.sync))))
            && (after.process.Up? ==> after.process.limited.sync.startBlock == m.process.limited.sync.startBlock)
  {
  }

  lemma SharedKeepsInv(s: Settings, t: Settings, m: Agent, e: SharedEvent)
    requires s.from == t.from && AgentInv(s, t, m) && InStep(HappenShared(s, t, m, e)) && InStep(m)
    ensures AgentInv(s, t, HappenShared(s, t, m, e))
  {
    match e {
      case LaunchBoth(count, tip) =>
        EventKeepsInv(s, m.first, Launch(count, tip));
        EventKeepsInv(t, m.second, Launch(count, tip));
      case TurnOf(First, env, cut) =>
        if m.first.process.Up? {
          OtherKeepsInv(s, t, m.first, m.second, env, cut);
        }
      case TurnOf(Second, env, cut) =>
        if m.second.process.Up? {
          OtherKeepsInv(t, s, m.second, m.first, env, cut);
        }
    }
  }

  lemma {:induction false} RunSharedKeepsInv(s: Settings, t: Settings, a: set<nat>, b: set<nat>, events: seq<SharedEvent>)
    requires s.from == t.from
    requires forall i :: 0 <= i <= |events| ==>
               InStep(RunShared(s, t, Agent(Machine(Down, a, None), Machine(Down, b, None)), events[..i]))
    ensures AgentInv(s, t, RunShared(s, t, Agent(Machine(Down, a, None), Machine(Down, b, None)), events))
    decreases |events|
  {
    var start := Agent(Machine(Down, a, None), Machine(Down, b, None));
    if events != [] {
      var before := events[..|events| - 1];
      forall i | 0 <= i <= |before|
        ensures InStep(RunShared(s, t, start, before[..i]))
      {
        assert before[..i] == events[..i];
      }
      RunSharedKeepsInv(s, t, a, b, before);
      assert events[..|before|] == before && events[..|events|] == events;
      SharedKeepsInv(s, t, RunShared(s, t, start, before), events[|before|]);
    }
  }

  /** If the two stay in step, then over any run with crashes and restarts a log of either that is not
      stored lies at or above where a launch would start. */
  lemma SharedRestartLosesNothing(
    s: Settings, t: Settings, a: set<nat>, b: set<nat>, events: seq<SharedEvent>, count: Option<nat>, tip: nat, k: nat
  )
    requires s.from == t.from
    requires forall i :: 0 <= i <= |events| ==>
               InStep(RunShared(s, t, Agent(Machine(Down, a, None), Machine(Down, b, None)), events[..i]))
    ensures var m := RunShared(s, t, Agent(Machine(Down, a, None), Machine(Down, b, None)), events);
            var launched := HappenShared(s, t, m, LaunchBoth(count, tip));
            && (k < |s.chain| && s.from <= s.chain[k] && k !in m.first.stored ==>
                  s.chain[k] >= launched.first.process.limited.sync.nextBlock)
            && (k < |t.chain| && t.from <= t.chain[k] && k !in m.second.stored ==>
                  t.chain[k] >= launched.second.process.limited.sync.nextBlock)
  {
    RunSharedKeepsInv(s, t, a, b, events);
  }

  /** The lag is exact: of a cursor that has got to `behind`, whatever its logs and however they are
      stored up to there, nothing below the watermark that one at `ahead` writes is missing, if and only
      if the latter is ahead by no more blocks than its chunk size. */
  lemma SharedWriteIsSafeExactly(s: Settings, ahead: Sync, behind: Sync)
    requires ahead.startBlock <= behind.nextBlock && s.from <= behind.nextBlock
    ensures (forall chain: seq<nat>, stored: set<nat> ::
               CoveredTo(s.(chain := chain), stored, behind.nextBlock) ==>
                 CoveredTo(s.(chain := chain), stored, Watermark(ahead)))
            <==> ahead.nextBlock <= behind.nextBlock + ahead.chunkSize
  {
    if ahead.nextBlock > behind.nextBlock + ahead.chunkSize {
      var one := s.(chain := [behind.nextBlock]);
      assert CoveredTo(one, {}, behind.nextBlock);
      assert one.chain[0] < Watermark(ahead) && !CoveredTo(one, {}, Watermark(ahead));
    }
  }

  /** And a single turn takes a cursor one block further than that. So when one of two cursors has had its
      first turn and the other has not, and the agent is restarted, a log of the other in the very first
      block is not looked for again. */
  lemma FirstTurnLosesALog(s: Settings, t: Settings, env: Ambient, count: Option<nat>, tip: nat)
    requires s.mode.ByBlock? && t.chain == [t.from] && s.from == t.from
    requires s.from + s.chunkSize < tip && env.reading.Reading? && s.from + s.chunkSize <= env.reading.tip
    ensures var start := Agent(Machine(Down, {}, None), Machine(Down, {}, None));
            var end := RunShared(s, t, start, [LaunchBoth(count, tip), TurnOf(First, env, Uncut), LaunchBoth(count, tip)]);
            0 !in end.second.stored && end.second.process.limited.sync.nextBlock == t.chain[0] + 1
  {
    var start := Agent(Machine(Down, {}, None), Machine(Down, {}, None));
    var launch, turn := LaunchBoth(count, tip), TurnOf(First, env, Uncut);
    assert [launch, turn, launch][..2] == [launch, turn] && [launch, turn][..1] == [launch] && [launch][..0] == [];
    var up := HappenShared(s, t, start, launch);
    assert RunShared(s, t, start, [launch]) == HappenShared(s, t, RunShared(s, t, start, []), launch) == up;
    assert RunShared(s, t, start, [launch, turn]) == HappenShared(s, t, up, turn);
    assert HappenShared(s, t, up, turn).second.watermark == Some(s.from + 1);
  }
}
