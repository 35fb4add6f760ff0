/** What the sequence-aware sync cursors do, step by step, as functions of their state. */
module SyncCursors {
  import opened Wrappers

  const MAX_SEQUENCE_RANGE: nat := 100

  datatype IndexMode = ByBlock | BySequence
  datatype Direction = Forward | Backward

  datatype Sync = Sync(
    chunkSize: nat,
    startBlock: nat,
    nextBlock: nat,
    mode: IndexMode,
    nextSequence: nat,
    direction: Direction
  )

  datatype Log = Log(sequence: nat, block: nat)

  /** The stored sequences, each with the block in which it occurred. The block is written last, so a
      log whose storing was cut off has none. */
  type Db = map<nat, Option<nat>>

  /** The reads of a database that fail: of a sequence's log, and of its block. */
  datatype Failing = Failing(logs: set<nat>, blocks: set<nat>)

  /** What is seen of a database. A read that fails is taken for a log, or a block, that is not there. */
  function Seen(db: Db, failing: Failing): Db {
    map k | k in db && k !in failing.logs :: if k in failing.blocks then None else db[k]
  }

  function BlockOf(db: Db, sequence: nat): Option<nat> {
    if sequence in db then db[sequence] else None
  }

  /** `sequence_and_tip`: the count of sequences (if any) and the tip, or an error. */
  datatype Reading = Reading(count: Option<nat>, tip: nat) | Unavailable

  /** An inclusive range; empty if `from > to`. */
  datatype Range = Range(from: nat, to: nat) {
    predicate Contains(k: nat) {
      from <= k <= to
    }
  }

  datatype NextRange = Failed | Nothing | Query(range: Range)

  function SaturatingSub(a: nat, b: nat): nat {
    if a >= b then a - b else 0
  }

  function Min(a: nat, b: nat): nat {
    if a <= b then a else b
  }

  // ----- Choosing the next range -----

  function BlockRange(st: Sync, tip: nat): (Sync, Range) {
    match st.direction
    case Forward =>
      var to := Min(st.nextBlock + st.chunkSize, tip);
      (st.(nextBlock := to + 1), Range(st.nextBlock, to))
    case Backward =>
      var from := SaturatingSub(st.nextBlock, st.chunkSize);
      (st.(nextBlock := SaturatingSub(from, 1)), Range(from, st.nextBlock))
  }

  function SequenceRange(st: Sync, maxSequence: nat): (Sync, Option<Range>) {
    match st.direction
    case Forward =>
      if st.nextSequence >= maxSequence then
        (st, None)
      else
        var end := Min(st.nextSequence + MAX_SEQUENCE_RANGE, SaturatingSub(maxSequence, 1));
        (st.(nextSequence := end + 1), Some(Range(st.nextSequence, end)))
    case Backward =>
      var start := SaturatingSub(st.nextSequence, MAX_SEQUENCE_RANGE);
      (st.(nextSequence := SaturatingSub(start, 1)), Some(Range(start, st.nextSequence)))
  }

  function GetNextRange(st: Sync, maxSequence: Option<nat>, tip: nat): (Sync, NextRange) {
    match st.mode
    case ByBlock =>
      var (st', range) := BlockRange(st, tip);
      (st', if range.from > range.to then Nothing else Query(range))
    case BySequence =>
      if maxSequence.None? then
        (st, Failed)
      else
        var (st', range) := SequenceRange(st, maxSequence.value);
        (st', if range.None? || range.value.from > range.value.to then Nothing else Query(range.value))
  }

  // ----- Forward -----

  /** The stored sequences from `sequence` on. */
  ghost function Ahead(db: Db, sequence: nat): set<nat> {
    set k | k in db && k >= sequence
  }

  /** Move past what is stored; the block is only moved to, if it is known, and not past it, as logs of
      it may be missing. */
  function FastForward(st: Sync, db: Db): Sync
    decreases Ahead(db, st.nextSequence)
  {
    if st.nextSequence !in db then
      st
    else
      assert st.nextSequence in Ahead(db, st.nextSequence) - Ahead(db, st.nextSequence + 1);
      FastForward(st.(nextBlock := db[st.nextSequence].GetOr(st.nextBlock), nextSequence := st.nextSequence + 1), db)
  }

  function ForwardNextRange(st: Sync, db: Db, reading: Reading): (Sync, NextRange) {
    CaughtUpNextRange(FastForward(st, db), reading)
  }

  function CaughtUpNextRange(caughtUp: Sync, reading: Reading): (Sync, NextRange) {
    match reading
    case Unavailable => (caughtUp, Failed)
    case Reading(None, _) => (caughtUp, Nothing)
    case Reading(Some(count), tip) =>
      if caughtUp.nextSequence == count then
        (caughtUp.(nextBlock := tip), Nothing)
      else if caughtUp.nextSequence < count then
        GetNextRange(caughtUp, Some(count), tip)
      else
        (caughtUp, Nothing)
  }

  // ----- Backward -----

  /** Move down past what is stored, until nothing is left to find. */
  function FastRewind(st: Sync, synced: bool, db: Db): (Sync, bool)
    decreases st.nextSequence
  {
    if synced || st.nextSequence !in db then
      (st, synced)
    else if st.nextSequence == 0 || st.nextBlock == 0 then
      (st, true)
    else
      FastRewind(st.(nextBlock := db[st.nextSequence].GetOr(st.nextBlock), nextSequence := st.nextSequence - 1), false, db)
  }

  function BackwardNextRange(st: Sync, synced: bool, db: Db, reading: Reading): (Sync, bool, NextRange) {
    var (rewound, synced') := FastRewind(st, synced, db);
    if synced' then
      (rewound, true, Nothing)
    else
      match reading
      case Unavailable => (rewound, false, Failed)
      case Reading(count, tip) =>
        var (st', next) := GetNextRange(rewound, count, tip);
        (st', false, next)
  }

  // ----- Digesting fetched logs -----

  predicate HasSequence(logs: seq<Log>, sequence: nat) {
    exists i :: 0 <= i < |logs| && logs[i].sequence == sequence
  }

  /** Logs that still matter to a cursor looking for `sequence`. */
  predicate HasRelevant(logs: seq<Log>, direction: Direction, sequence: nat) {
    exists i :: 0 <= i < |logs| && if direction.Forward? then logs[i].sequence >= sequence else logs[i].sequence <= sequence
  }

  /** The sequence a cursor has just passed. */
  function PrevSequence(st: Sync): nat {
    if st.direction.Forward? then SaturatingSub(st.nextSequence, 1) else st.nextSequence + 1
  }

  /** Relevant logs without the one looked for: go back to the last known block, or to the start. */
  function Update(st: Sync, db: Db, logs: seq<Log>): Sync {
    if HasRelevant(logs, st.direction, st.nextSequence) && !HasSequence(logs, st.nextSequence) then
      st.(nextBlock := BlockOf(db, PrevSequence(st)).GetOr(st.startBlock))
    else
      st
  }

  /** What is stored already stays, also if its block is missing; but if the look-up of what is stored
      fails, as for the sequences in `unread`, it is stored again. */
  function StoreLogs(db: Db, logs: seq<Log>, unread: set<nat>): Db {
    if logs == [] then
      db
    else
      var before, last := StoreLogs(db, logs[..|logs| - 1], unread), logs[|logs| - 1];
      if last.sequence in before && last.sequence !in unread then before
      else before[last.sequence := Some(last.block)]
  }

  /** What is left if storing fails at log `at`: if `torn`, that log is there without its block. */
  function StorePart(db: Db, logs: seq<Log>, unread: set<nat>, at: nat, torn: bool): Db
    requires at < |logs|
  {
    var before := StoreLogs(db, logs[..at], unread);
    if torn && logs[at].sequence !in before then before[logs[at].sequence := None] else before
  }

  // ----- Both directions -----

  datatype Cursors = Cursors(forward: Sync, backward: Sync, synced: bool, direction: Direction)

  /** The cursors as created from a first reading. */
  function NewCursors(chunkSize: nat, mode: IndexMode, count: nat, tip: nat): Cursors {
    Cursors(Sync(chunkSize, tip, tip, mode, count, Forward),
            Sync(chunkSize, tip, tip, mode, SaturatingSub(count, 1), Backward),
            count == 0, Forward)
  }

  /** Forward syncing has priority. Each cursor has its own view of the database. */
  function NextAction(c: Cursors, forwardDb: Db, backwardDb: Db, forward: Reading, backward: Reading): (Cursors, NextRange) {
    var (f, next) := ForwardNextRange(c.forward, forwardDb, forward);
    match next
    case Failed => (c.(forward := f), Failed)
    case Query(range) => (c.(forward := f, direction := Forward), next)
    case Nothing =>
      var (b, synced, next') := BackwardNextRange(c.backward, c.synced, backwardDb, backward);
      (c.(forward := f, backward := b, synced := synced, direction := if next'.Query? then Backward else c.direction), next')
  }

  function UpdateCursors(c: Cursors, db: Db, logs: seq<Log>): Cursors {
    match c.direction
    case Forward => c.(forward := Update(c.forward, db, logs))
    case Backward => c.(backward := Update(c.backward, db, logs))
  }
}
