/** Whole runs of the forward-backward cursor in the sync loop: what gets stored, and that it ends. */
module SyncRuns {
  import opened Wrappers
  import opened SyncCursors
  import opened SyncSteps

  // ----- The chain, the indexer and the store -----

  predicate InRange(chain: seq<nat>, mode: IndexMode, range: Range, sequence: nat)
    requires sequence < |chain|
  {
    range.Contains(if mode.ByBlock? then chain[sequence] else sequence)
  }

  /** The logs of the first `n` sequences in a range, without those the indexer drops. */
  function FetchLogs(chain: seq<nat>, mode: IndexMode, range: Range, dropped: set<nat>, n: nat): seq<Log>
    requires n <= |chain|
  {
    if n == 0 then
      []
    else
      FetchLogs(chain, mode, range, dropped, n - 1)
      + if InRange(chain, mode, range, n - 1) && n - 1 !in dropped then [Log(n - 1, chain[n - 1])] else []
  }

  ghost predicate GenuineLogs(chain: seq<nat>, logs: seq<Log>) {
    forall i :: 0 <= i < |logs| ==> logs[i].sequence < |chain| && logs[i].block == chain[logs[i].sequence]
  }

  lemma {:induction false} FetchedExactly(chain: seq<nat>, mode: IndexMode, range: Range, dropped: set<nat>, n: nat, k: nat)
    requires n <= |chain|
    ensures var logs := FetchLogs(chain, mode, range, dropped, n);
            && GenuineLogs(chain, logs)
            && (HasSequence(logs, k) <==> k < n && InRange(chain, mode, range, k) && k !in dropped)
  {
    if n > 0 {
      FetchedExactly(chain, mode, range, dropped, n - 1, k);
      var before, logs := FetchLogs(chain, mode, range, dropped, n - 1), FetchLogs(chain, mode, range, dropped, n);
      if HasSequence(before, k) {
        var i :| 0 <= i < |before| && before[i].sequence == k;
        assert logs[i].sequence == k;
      }
      if k == n - 1 && |logs| > |before| {
        assert logs[|before|].sequence == k;
      }
    }
  }

  /** Only the chain's sequences are stored, and no wrong block for any. */
  ghost predicate GenuineDb(chain: seq<nat>, db: Db) {
    forall k :: k in db ==> k < |chain| && (db[k].Some? ==> db[k].value == chain[k])
  }

  lemma {:induction false} StoredExactly(chain: seq<nat>, db: Db, logs: seq<Log>, unread: set<nat>, k: nat)
    ensures k in StoreLogs(db, logs, unread) <==> k in db || HasSequence(logs, k)
    ensures GenuineDb(chain, db) && GenuineLogs(chain, logs) ==> GenuineDb(chain, StoreLogs(db, logs, unread))
    decreases |logs|
  {
    if logs != [] {
      var before, last := logs[..|logs| - 1], logs[|logs| - 1];
      StoredExactly(chain, db, before, unread, k);
      if HasSequence(before, k) {
        var i :| 0 <= i < |before| && before[i].sequence == k;
        assert logs[i].sequence == k;
      }
      if HasSequence(logs, k) && last.sequence != k {
        var i :| 0 <= i < |logs| && logs[i].sequence == k;
        assert before[i].sequence == k;
      }
    }
  }

  /** What a failing store leaves is genuine, too, and nothing that was there is lost. */
  lemma PartIsGenuine(chain: seq<nat>, db: Db, logs: seq<Log>, unread: set<nat>, at: nat, torn: bool)
    requires GenuineDb(chain, db) && GenuineLogs(chain, logs) && at < |logs|
    ensures var part := StorePart(db, logs, unread, at, torn); GenuineDb(chain, part) && db.Keys <= part.Keys
  {
    forall k: nat
      ensures GenuineDb(chain, StoreLogs(db, logs[..at], unread))
      ensures k in db ==> k in StoreLogs(db, logs[..at], unread)
    {
      StoredExactly(chain, db, logs[..at], unread, k);
    }
  }

  // ----- The loop -----

  datatype Fault = NoFault | FetchFails | StoreFails(at: nat, torn: bool)

  /** What the environment does around one turn of the loop. Before it, others have stored logs, some
      of them without a block. Then come the answers to the cursors' queries, with the reads of the
      database that fail for each cursor and for the update; the logs the indexer drops; the logs that
      are stored anew; and the failure that ends the loop. A log that is stored by others in the
      middle of the turn is one that is there from the start, and that the earlier reads miss. */
  datatype Env = Env(
    inserted: set<nat>,
    torn: set<nat>,
    forward: Reading,
    forwardReads: Failing,
    backward: Reading,
    backwardReads: Failing,
    dropped: set<nat>,
    unread: set<nat>,
    updateReads: set<nat>,
    fault: Fault
  )

  /** `stopped`: a fetch or a store failed, and the loop returned. */
  datatype State = State(cursors: Cursors, db: Db, stopped: bool)

  function Inserted(chain: seq<nat>, db: Db, inserted: set<nat>, torn: set<nat>): Db {
    (map k | k in inserted && k < |chain| :: if k in torn then None else Some(chain[k])) + db
  }

  function Step(chain: seq<nat>, st: State, env: Env): State {
    if st.stopped then st else Turn(chain, st.cursors, Inserted(chain, st.db, env.inserted, env.torn), env)
  }

  /** The part of a turn after others have stored what they store. */
  function Turn(chain: seq<nat>, c: Cursors, db: Db, env: Env): State {
    var (cursors, next) := NextAction(c, Seen(db, env.forwardReads), Seen(db, env.backwardReads), env.forward, env.backward);
    match next
    case Failed => State(cursors, db, false)
    case Nothing => State(cursors, db, false)
    case Query(range) => Queried(chain, cursors, db, range, env)
  }

  /** Fetch, store, update; or fail on the way. */
  function Queried(chain: seq<nat>, cursors: Cursors, db: Db, range: Range, env: Env): State {
    var logs := FetchLogs(chain, cursors.forward.mode, range, env.dropped, |chain|);
    if env.fault.FetchFails? then
      State(cursors, db, true)
    else if env.fault.StoreFails? && env.fault.at < |logs| then
      State(cursors, StorePart(db, logs, env.unread, env.fault.at, env.fault.torn), true)
    else
      Digest(chain, cursors, db, range, env)
  }

  function Digest(chain: seq<nat>, cursors: Cursors, db: Db, range: Range, env: Env): State {
    var logs := FetchLogs(chain, cursors.forward.mode, range, env.dropped, |chain|);
    var db' := StoreLogs(db, logs, env.unread);
    State(UpdateCursors(cursors, Seen(db', Failing({}, env.updateReads)), logs), db', false)
  }

  function Run(chain: seq<nat>, st: State, envs: seq<Env>): State {
    if envs == [] then st else Step(chain, Run(chain, st, envs[..|envs| - 1]), envs[|envs| - 1])
  }

  // ----- The invariants -----

  /** All logs the chain will have emitted by the end of the run, and the reading that created the
      cursors. */
  datatype World = World(chain: seq<nat>, count: nat, tip: nat, chunkSize: nat, mode: IndexMode)

  ghost predicate NonDecreasing(chain: seq<nat>) {
    forall i, j :: 0 <= i <= j < |chain| ==> chain[i] <= chain[j]
  }

  /** A count and a tip read at one point of the chain. */
  ghost predicate Consistent(chain: seq<nat>, count: nat, tip: nat) {
    && count <= |chain|
    && (forall k :: 0 <= k < count ==> chain[k] <= tip)
    && (forall k :: count <= k < |chain| ==> chain[k] > tip)
  }

  ghost predicate GoodWorld(w: World) {
    NonDecreasing(w.chain) && Consistent(w.chain, w.count, w.tip)
  }

  ghost predicate ConsistentReading(chain: seq<nat>, reading: Reading) {
    reading.Reading? && reading.count.Some? ==> Consistent(chain, reading.count.value, reading.tip)
  }

  ghost predicate Configured(w: World, c: Cursors) {
    && c.forward == Sync(w.chunkSize, w.tip, c.forward.nextBlock, w.mode, c.forward.nextSequence, Forward)
    && c.backward == Sync(w.chunkSize, w.tip, c.backward.nextBlock, w.mode, c.backward.nextSequence, Backward)
  }

  /** Everything the forward cursor has passed is stored. */
  ghost predicate ForwardProgress(w: World, f: Sync, db: Db) {
    && w.count <= f.nextSequence <= |w.chain|
    && forall k :: w.count <= k < f.nextSequence ==> k in db
  }

  /** Everything in the blocks it has scanned past is stored. */
  ghost predicate ForwardSeeks(w: World, f: Sync, db: Db) {
    forall k :: w.count <= k < |w.chain| && w.chain[k] < f.nextBlock ==> k in db
  }

  /** Everything the backward cursor has passed is stored. */
  ghost predicate BackwardProgress(w: World, b: Sync, synced: bool, db: Db) {
    && (if w.count == 0 then synced else b.nextSequence < w.count && (synced ==> b.nextSequence in db))
    && forall k :: b.nextSequence < k < w.count ==> k in db
  }

  /** Everything in the blocks it has scanned past is stored; once it is done, everything above block
      zero. */
  ghost predicate BackwardSeeks(w: World, b: Sync, synced: bool, db: Db) {
    forall k :: 0 <= k < w.count && k < |w.chain| && w.chain[k] > (if synced then 0 else b.nextBlock) ==> k in db
  }

  /** What holds whatever the indexer drops. */
  ghost predicate Progress(w: World, st: State) {
    && GenuineDb(w.chain, st.db)
    && Configured(w, st.cursors)
    && ForwardProgress(w, st.cursors.forward, st.db)
    && BackwardProgress(w, st.cursors.backward, st.cursors.synced, st.db)
  }

  /** What holds if it drops nothing. */
  ghost predicate Seeking(w: World, st: State) {
    && ForwardSeeks(w, st.cursors.forward, st.db)
    && BackwardSeeks(w, st.cursors.backward, st.cursors.synced, st.db)
  }

  function Start(w: World, db: Db): State {
    State(NewCursors(w.chunkSize, w.mode, w.count, w.tip), db, false)
  }

  lemma StartIsGood(w: World, db: Db)
    requires GoodWorld(w) && GenuineDb(w.chain, db)
    ensures Progress(w, Start(w, db)) && Seeking(w, Start(w, db))
  {
  }

  // ----- Steps of one cursor, on what it sees of the database -----

  ghost predicate Sees(w: World, seen: Db, db: Db) {
    seen.Keys <= db.Keys && GenuineDb(w.chain, seen)
  }

  lemma {:induction false} FastForwardKeeps(w: World, f: Sync, db: Db, seen: Db)
    requires GoodWorld(w) && GenuineDb(w.chain, db) && Sees(w, seen, db) && ForwardProgress(w, f, db)
    ensures var f' := FastForward(f, seen);
            && ForwardProgress(w, f', db) && f'.nextSequence !in seen && f'.nextSequence >= f.nextSequence
            && f' == f.(nextBlock := f'.nextBlock, nextSequence := f'.nextSequence)
            && (f'.nextSequence == f.nextSequence ==> f' == f)
            && (ForwardSeeks(w, f, db) ==> ForwardSeeks(w, f', db))
    decreases Ahead(seen, f.nextSequence)
  {
    if f.nextSequence in seen {
      assert f.nextSequence in Ahead(seen, f.nextSequence) - Ahead(seen, f.nextSequence + 1);
      var f' := f.(nextBlock := seen[f.nextSequence].GetOr(f.nextBlock), nextSequence := f.nextSequence + 1);
      FastForwardKeeps(w, f', db, seen);
    }
  }

  lemma {:induction false} FastRewindKeeps(w: World, b: Sync, synced: bool, db: Db, seen: Db)
    requires GoodWorld(w) && GenuineDb(w.chain, db) && Sees(w, seen, db) && BackwardProgress(w, b, synced, db)
    ensures var (b', synced') := FastRewind(b, synced, seen);
            && BackwardProgress(w, b', synced', db) && (synced' || b'.nextSequence !in seen)
            && b' == b.(nextBlock := b'.nextBlock, nextSequence := b'.nextSequence)
            && b'.nextSequence <= b.nextSequence && (synced ==> synced')
            && (b'.nextSequence == b.nextSequence ==> b' == b)
            && (BackwardSeeks(w, b, synced, db) ==> BackwardSeeks(w, b', synced', db))
    decreases b.nextSequence
  {
    if !synced && b.nextSequence in seen && b.nextSequence > 0 && b.nextBlock > 0 {
      var b' := b.(nextBlock := seen[b.nextSequence].GetOr(b.nextBlock), nextSequence := b.nextSequence - 1);
      FastRewindKeeps(w, b', false, db, seen);
    }
  }

  /** Going back never goes past what is looked for, dropped logs or not. */
  lemma RewindIsSafe(w: World, st: Sync, seen: Db, logs: seq<Log>)
    requires GoodWorld(w) && GenuineDb(w.chain, seen) && st.startBlock == w.tip
    requires st.direction.Forward? ==> w.count <= st.nextSequence < |w.chain|
    requires st.direction.Backward? ==> st.nextSequence < w.count
    requires HasRelevant(logs, st.direction, st.nextSequence) && !HasSequence(logs, st.nextSequence)
    ensures var st' := Update(st, seen, logs);
            && st'.nextSequence == st.nextSequence
            && (st.direction.Forward? ==> st.nextSequence in seen || st'.nextBlock <= w.chain[st.nextSequence])
            && (st.direction.Backward? ==> st'.nextBlock >= w.chain[st.nextSequence])
  {
  }

  /** Query, fetch, store, update, for one cursor. */
  function DigestOne(chain: seq<nat>, st: Sync, db: Db, range: Range, env: Env): (Sync, Db) {
    var logs := FetchLogs(chain, st.mode, range, env.dropped, |chain|);
    var db' := StoreLogs(db, logs, env.unread);
    (Update(st, Seen(db', Failing({}, env.updateReads)), logs), db')
  }

  lemma DigestStores(chain: seq<nat>, st: Sync, db: Db, range: Range, env: Env, k: nat)
    requires GenuineDb(chain, db)
    ensures var db' := DigestOne(chain, st, db, range, env).1;
            && GenuineDb(chain, db')
            && (k in db' <==> k in db || (k < |chain| && InRange(chain, st.mode, range, k) && k !in env.dropped))
  {
    FetchedExactly(chain, st.mode, range, env.dropped, |chain|, k);
    StoredExactly(chain, db, FetchLogs(chain, st.mode, range, env.dropped, |chain|), env.unread, k);
  }

  lemma DigestGrows(chain: seq<nat>, st: Sync, db: Db, range: Range, env: Env)
    requires GenuineDb(chain, db)
    ensures var db' := DigestOne(chain, st, db, range, env).1;
            && GenuineDb(chain, db') && db.Keys <= db'.Keys
            && forall k :: 0 <= k < |chain| && k !in env.dropped && InRange(chain, st.mode, range, k) ==> k in db'
  {
    DigestStores(chain, st, db, range, env, 0);
    forall k: nat
      ensures k in db ==> k in DigestOne(chain, st, db, range, env).1
      ensures k < |chain| && k !in env.dropped && InRange(chain, st.mode, range, k) ==>
                k in DigestOne(chain, st, db, range, env).1
    {
      DigestStores(chain, st, db, range, env, k);
    }
  }

  /** What an update does to a cursor: nothing, or it goes back to the block of the sequence it has just
      passed, or to where it started. */
  lemma UpdateGoesBack(w: World, st: Sync, seen: Db, logs: seq<Log>)
    requires GenuineDb(w.chain, seen)
    ensures var st', k := Update(st, seen, logs), PrevSequence(st);
            && st' == st.(nextBlock := st'.nextBlock)
            && (|| st'.nextBlock == st.nextBlock
                || st'.nextBlock == st.startBlock
                || (k < |w.chain| && st'.nextBlock == w.chain[k]))
  {
  }

  lemma ForwardDigestProgress(w: World, f: Sync, db: Db, count: nat, tip: nat, env: Env)
    requires GoodWorld(w) && GenuineDb(w.chain, db) && f.startBlock == w.tip && f.direction.Forward?
    requires ForwardProgress(w, f, db) && f.nextSequence < count <= |w.chain|
    requires f.mode.ByBlock? || env.dropped == {}
    ensures var (f', next) := GetNextRange(f, Some(count), tip);
            match next
            case Failed => false
            case Nothing => f.mode.ByBlock? && f' == f.(nextBlock := tip + 1) && tip < f.nextBlock
            case Query(range) =>
              var (f'', db') := DigestOne(w.chain, f', db, range, env);
              && ForwardProgress(w, f'', db') && f''.nextSequence >= f.nextSequence
              && f'' == f.(nextBlock := f''.nextBlock, nextSequence := f''.nextSequence)
  {
    var (f', next) := GetNextRange(f, Some(count), tip);
    if next.Query? {
      DigestGrows(w.chain, f', db, next.range, env);
    }
  }

  /** An honest answer leaves nothing out, so nothing unstored is passed, and no update goes past
      anything unstored. */
  lemma ForwardDigestSeeks(w: World, f: Sync, db: Db, count: nat, tip: nat, env: Env)
    requires GoodWorld(w) && GenuineDb(w.chain, db) && f.startBlock == w.tip && f.direction.Forward?
    requires ForwardProgress(w, f, db) && f.nextSequence < count <= |w.chain|
    requires ForwardSeeks(w, f, db) && env.dropped == {}
    requires GetNextRange(f, Some(count), tip).1.Query?
    ensures var (f', next) := GetNextRange(f, Some(count), tip);
            var (f'', db') := DigestOne(w.chain, f', db, next.range, env);
            ForwardSeeks(w, f'', db')
  {
    var (f', next) := GetNextRange(f, Some(count), tip);
    var (f'', db') := DigestOne(w.chain, f', db, next.range, env);
    DigestGrows(w.chain, f', db, next.range, env);
    ForwardDigestProgress(w, f, db, count, tip, env);
    UpdateGoesBack(w, f', Seen(db', Failing({}, env.updateReads)), FetchLogs(w.chain, f'.mode, next.range, {}, |w.chain|));
  }

  /** An honest batch that holds something later holds what is looked for: no rewind. */
  lemma NoForwardGap(w: World, f: Sync, range: Range)
    requires GoodWorld(w) && f.direction.Forward? && f.mode.ByBlock? && f.nextSequence < |w.chain|
    requires range.from <= w.chain[f.nextSequence]
    ensures var logs := FetchLogs(w.chain, f.mode, range, {}, |w.chain|);
            HasRelevant(logs, Forward, f.nextSequence) ==> HasSequence(logs, f.nextSequence)
  {
    var logs := FetchLogs(w.chain, f.mode, range, {}, |w.chain|);
    if HasRelevant(logs, Forward, f.nextSequence) {
      var i :| 0 <= i < |logs| && logs[i].sequence >= f.nextSequence;
      FetchedExactly(w.chain, f.mode, range, {}, |w.chain|, logs[i].sequence);
      assert HasSequence(logs, logs[i].sequence);
      FetchedExactly(w.chain, f.mode, range, {}, |w.chain|, f.nextSequence);
    }
  }

  lemma NoBackwardGap(w: World, b: Sync, range: Range)
    requires GoodWorld(w) && b.direction.Backward? && b.mode.ByBlock? && b.nextSequence < |w.chain|
    requires w.chain[b.nextSequence] <= range.to
    ensures var logs := FetchLogs(w.chain, b.mode, range, {}, |w.chain|);
            HasRelevant(logs, Backward, b.nextSequence) ==> HasSequence(logs, b.nextSequence)
  {
    var logs := FetchLogs(w.chain, b.mode, range, {}, |w.chain|);
    if HasRelevant(logs, Backward, b.nextSequence) {
      var i :| 0 <= i < |logs| && logs[i].sequence <= b.nextSequence;
      FetchedExactly(w.chain, b.mode, range, {}, |w.chain|, logs[i].sequence);
      assert HasSequence(logs, logs[i].sequence);
      FetchedExactly(w.chain, b.mode, range, {}, |w.chain|, b.nextSequence);
    }
  }

  lemma BackwardDigestProgress(w: World, b: Sync, db: Db, count: Option<nat>, tip: nat, env: Env)
    requires GoodWorld(w) && GenuineDb(w.chain, db) && b.startBlock == w.tip && b.direction.Backward?
    requires BackwardProgress(w, b, false, db)
    requires b.mode.ByBlock? || env.dropped == {}
    ensures var (b', next) := GetNextRange(b, count, tip);
            match next
            case Failed => b' == b
            case Nothing => false
            case Query(range) =>
              var (b'', db') := DigestOne(w.chain, b', db, range, env);
              && BackwardProgress(w, b'', false, db') && b''.nextSequence <= b.nextSequence
              && b'' == b.(nextBlock := b''.nextBlock, nextSequence := b''.nextSequence)
  {
    var (b', next) := GetNextRange(b, count, tip);
    if next.Query? {
      DigestGrows(w.chain, b', db, next.range, env);
    }
  }

  lemma BackwardDigestSeeks(w: World, b: Sync, db: Db, count: Option<nat>, tip: nat, env: Env)
    requires GoodWorld(w) && GenuineDb(w.chain, db) && b.startBlock == w.tip && b.direction.Backward?
    requires BackwardProgress(w, b, false, db) && BackwardSeeks(w, b, false, db) && env.dropped == {}
    requires GetNextRange(b, count, tip).1.Query?
    ensures var (b', next) := GetNextRange(b, count, tip);
            var (b'', db') := DigestOne(w.chain, b', db, next.range, env);
            BackwardSeeks(w, b'', false, db')
  {
    var (b', next) := GetNextRange(b, count, tip);
    var (b'', db') := DigestOne(w.chain, b', db, next.range, env);
    DigestGrows(w.chain, b', db, next.range, env);
    BackwardDigestProgress(w, b, db, count, tip, env);
    UpdateGoesBack(w, b', Seen(db', Failing({}, env.updateReads)), FetchLogs(w.chain, b'.mode, next.range, {}, |w.chain|));
  }

  // ----- Steps of the loop -----

  /** The chain never has more sequences than it will have emitted by the end. */
  ghost predicate PlausibleReading(chain: seq<nat>, reading: Reading) {
    reading.Reading? && reading.count.Some? ==> reading.count.value <= |chain|
  }

  ghost predicate Honest(chain: seq<nat>, env: Env) {
    env.dropped == {} && ConsistentReading(chain, env.forward)
  }

  ghost predicate AllHonest(chain: seq<nat>, envs: seq<Env>) {
    forall i :: 0 <= i < |envs| ==> Honest(chain, envs[i])
  }

  ghost predicate AllPlausible(chain: seq<nat>, envs: seq<Env>) {
    forall i :: 0 <= i < |envs| ==> PlausibleReading(chain, envs[i].forward)
  }

  /** A database that only grows keeps what holds of a cursor. */
  lemma ForwardGrows(w: World, f: Sync, db: Db, db': Db)
    requires db.Keys <= db'.Keys
    ensures ForwardProgress(w, f, db) ==> ForwardProgress(w, f, db')
    ensures ForwardSeeks(w, f, db) ==> ForwardSeeks(w, f, db')
  {
  }

  lemma BackwardGrows(w: World, b: Sync, synced: bool, db: Db, db': Db)
    requires db.Keys <= db'.Keys
    ensures BackwardProgress(w, b, synced, db) ==> BackwardProgress(w, b, synced, db')
    ensures BackwardSeeks(w, b, synced, db) ==> BackwardSeeks(w, b, synced, db')
  {
  }

  /** What a turn of the loop digests is what the cursor that asked digests. */
  lemma DigestIsOne(chain: seq<nat>, c: Cursors, db: Db, range: Range, env: Env)
    requires c.forward.mode == c.backward.mode
    ensures var st := if c.direction.Forward? then c.forward else c.backward;
            var (st', db') := DigestOne(chain, st, db, range, env);
            Digest(chain, c, db, range, env)
            == State(if c.direction.Forward? then c.(forward := st') else c.(backward := st'), db', false)
  {
  }

  /** A query that fails on the way leaves a genuine database, and one that does not is digested. */
  lemma QueriedKeeps(w: World, c: Cursors, db: Db, range: Range, env: Env)
    requires GenuineDb(w.chain, db) && c.forward.mode == c.backward.mode
    ensures var st := Queried(w.chain, c, db, range, env);
            && GenuineDb(w.chain, st.db) && db.Keys <= st.db.Keys
            && (st.stopped || st == Digest(w.chain, c, db, range, env))
  {
    var logs := FetchLogs(w.chain, c.forward.mode, range, env.dropped, |w.chain|);
    FetchedExactly(w.chain, c.forward.mode, range, env.dropped, |w.chain|, 0);
    if env.fault.StoreFails? && env.fault.at < |logs| {
      PartIsGenuine(w.chain, db, logs, env.unread, env.fault.at, env.fault.torn);
    }
    DigestIsOne(w.chain, c, db, range, env);
    DigestGrows(w.chain, if c.direction.Forward? then c.forward else c.backward, db, range, env);
  }

  /** The forward cursor's part of a turn. */
  function ForwardTurn(chain: seq<nat>, c: Cursors, db: Db, env: Env): State {
    var (f, next) := ForwardNextRange(c.forward, Seen(db, env.forwardReads), env.forward);
    var c' := c.(forward := f, direction := if next.Query? then Forward else c.direction);
    if next.Query? then Digest(chain, c', db, next.range, env) else State(c', db, false)
  }

  /** The backward cursor's part, if the forward cursor has nothing to do. */
  function BackwardTurn(chain: seq<nat>, c: Cursors, db: Db, env: Env): State {
    var (b, synced, next) := BackwardNextRange(c.backward, c.synced, Seen(db, env.backwardReads), env.backward);
    var c' := c.(backward := b, synced := synced, direction := if next.Query? then Backward else c.direction);
    if next.Query? then Digest(chain, c', db, next.range, env) else State(c', db, false)
  }

  /** A turn is one of the two, unless it fails on the way. */
  lemma TurnIsOne(w: World, c: Cursors, db: Db, env: Env)
    requires GenuineDb(w.chain, db) && Configured(w, c)
    ensures var st := Turn(w.chain, c, db, env);
            var (f, next) := ForwardNextRange(c.forward, Seen(db, env.forwardReads), env.forward);
            && GenuineDb(w.chain, st.db) && db.Keys <= st.db.Keys
            && (st.stopped
                || st == if next.Nothing? then BackwardTurn(w.chain, c.(forward := f), db, env)
                         else ForwardTurn(w.chain, c, db, env))
  {
    var (f, next) := ForwardNextRange(c.forward, Seen(db, env.forwardReads), env.forward);
    ForwardStays(c.forward, Seen(db, env.forwardReads), env.forward);
    if next.Query? {
      QueriedKeeps(w, c.(forward := f, direction := Forward), db, next.range, env);
    } else if next.Nothing? {
      var (b, synced, next') := BackwardNextRange(c.backward, c.synced, Seen(db, env.backwardReads), env.backward);
      BackwardStays(c.backward, c.synced, Seen(db, env.backwardReads), env.backward);
      if next'.Query? {
        QueriedKeeps(w, c.(forward := f, backward := b, synced := synced, direction := Backward), db, next'.range, env);
      }
    }
  }

  lemma ForwardStays(f: Sync, seen: Db, reading: Reading)
    ensures ForwardNextRange(f, seen, reading).0.mode == f.mode
    decreases Ahead(seen, f.nextSequence)
  {
    if f.nextSequence in seen {
      assert f.nextSequence in Ahead(seen, f.nextSequence) - Ahead(seen, f.nextSequence + 1);
      ForwardStays(f.(nextBlock := seen[f.nextSequence].GetOr(f.nextBlock), nextSequence := f.nextSequence + 1), seen, reading);
    }
  }

  lemma BackwardStays(b: Sync, synced: bool, seen: Db, reading: Reading)
    ensures BackwardNextRange(b, synced, seen, reading).0.mode == b.mode
    decreases b.nextSequence
  {
    if !synced && b.nextSequence in seen && b.nextSequence > 0 && b.nextBlock > 0 {
      BackwardStays(b.(nextBlock := seen[b.nextSequence].GetOr(b.nextBlock), nextSequence := b.nextSequence - 1),
                    false, seen, reading);
    }
  }

  lemma ForwardTurnProgress(w: World, c: Cursors, db: Db, env: Env)
    requires GoodWorld(w) && Progress(w, State(c, db, false))
    requires PlausibleReading(w.chain, env.forward) && (w.mode.ByBlock? || env.dropped == {})
    ensures Progress(w, ForwardTurn(w.chain, c, db, env))
  {
    var seen := Seen(db, env.forwardReads);
    FastForwardKeeps(w, c.forward, db, seen);
    var f := FastForward(c.forward, seen);
    if env.forward.Reading? && env.forward.count.Some? && f.nextSequence < env.forward.count.value {
      var count, tip := env.forward.count.value, env.forward.tip;
      ForwardDigestProgress(w, f, db, count, tip, env);
      var (f', next) := GetNextRange(f, Some(count), tip);
      if next.Query? {
        DigestIsOne(w.chain, c.(forward := f', direction := Forward), db, next.range, env);
        DigestGrows(w.chain, f', db, next.range, env);
        BackwardGrows(w, c.backward, c.synced, db, DigestOne(w.chain, f', db, next.range, env).1);
      }
    }
  }

  lemma BackwardTurnProgress(w: World, c: Cursors, db: Db, env: Env)
    requires GoodWorld(w) && Progress(w, State(c, db, false))
    requires w.mode.ByBlock? || env.dropped == {}
    ensures Progress(w, BackwardTurn(w.chain, c, db, env))
  {
    var seen := Seen(db, env.backwardReads);
    FastRewindKeeps(w, c.backward, c.synced, db, seen);
    var (b, synced) := FastRewind(c.backward, c.synced, seen);
    if !synced && env.backward.Reading? {
      BackwardDigestProgress(w, b, db, env.backward.count, env.backward.tip, env);
      var (b', next) := GetNextRange(b, env.backward.count, env.backward.tip);
      if next.Query? {
        DigestIsOne(w.chain, c.(backward := b', synced := false, direction := Backward), db, next.range, env);
        DigestGrows(w.chain, b', db, next.range, env);
        ForwardGrows(w, c.forward, db, DigestOne(w.chain, b', db, next.range, env).1);
      }
    }
  }

  lemma ForwardTurnSeeks(w: World, c: Cursors, db: Db, env: Env)
    requires GoodWorld(w) && Progress(w, State(c, db, false)) && Seeking(w, State(c, db, false)) && Honest(w.chain, env)
    ensures Seeking(w, ForwardTurn(w.chain, c, db, env))
  {
    var seen := Seen(db, env.forwardReads);
    FastForwardKeeps(w, c.forward, db, seen);
    var f := FastForward(c.forward, seen);
    if CaughtUpNextRange(f, env.forward).1.Query? {
      ForwardAnswerSeeks(w, c, f, db, env.forward.count.value, env.forward.tip, env);
    } else {
      ForwardRestSeeks(w, f, db, env.forward);
    }
  }

  /** Without a query, the cursor moves its block at most to where everything before is stored. */
  lemma ForwardRestSeeks(w: World, f: Sync, db: Db, reading: Reading)
    requires GoodWorld(w) && f.direction.Forward? && ConsistentReading(w.chain, reading)
    requires ForwardProgress(w, f, db) && ForwardSeeks(w, f, db) && !CaughtUpNextRange(f, reading).1.Query?
    ensures ForwardSeeks(w, CaughtUpNextRange(f, reading).0, db)
  {
  }

  /** `f`: the forward cursor once it has moved past what is stored. */
  lemma ForwardAnswerSeeks(w: World, c: Cursors, f: Sync, db: Db, count: nat, tip: nat, env: Env)
    requires GoodWorld(w) && GenuineDb(w.chain, db) && Configured(w, c.(forward := f))
    requires ForwardProgress(w, f, db) && f.nextSequence < count <= |w.chain|
    requires ForwardSeeks(w, f, db) && BackwardSeeks(w, c.backward, c.synced, db) && env.dropped == {}
    requires GetNextRange(f, Some(count), tip).1.Query?
    ensures var (f', next) := GetNextRange(f, Some(count), tip);
            Seeking(w, Digest(w.chain, c.(forward := f', direction := Forward), db, next.range, env))
  {
    var (f', next) := GetNextRange(f, Some(count), tip);
    ForwardDigestSeeks(w, f, db, count, tip, env);
    DigestIsOne(w.chain, c.(forward := f', direction := Forward), db, next.range, env);
    DigestGrows(w.chain, f', db, next.range, env);
    BackwardGrows(w, c.backward, c.synced, db, DigestOne(w.chain, f', db, next.range, env).1);
  }

  lemma BackwardTurnSeeks(w: World, c: Cursors, db: Db, env: Env)
    requires GoodWorld(w) && Progress(w, State(c, db, false)) && Seeking(w, State(c, db, false)) && Honest(w.chain, env)
    ensures Seeking(w, BackwardTurn(w.chain, c, db, env))
  {
    var seen := Seen(db, env.backwardReads);
    FastRewindKeeps(w, c.backward, c.synced, db, seen);
    var (b, synced) := FastRewind(c.backward, c.synced, seen);
    if !synced && env.backward.Reading? {
      var (b', next) := GetNextRange(b, env.backward.count, env.backward.tip);
      if next.Query? {
        BackwardDigestSeeks(w, b, db, env.backward.count, env.backward.tip, env);
        DigestIsOne(w.chain, c.(backward := b', synced := false, direction := Backward), db, next.range, env);
        DigestGrows(w.chain, b', db, next.range, env);
        ForwardGrows(w, c.forward, db, DigestOne(w.chain, b', db, next.range, env).1);
      }
    }
  }

  lemma TurnProgress(w: World, c: Cursors, db: Db, env: Env)
    requires GoodWorld(w) && Progress(w, State(c, db, false))
    requires PlausibleReading(w.chain, env.forward) && (w.mode.ByBlock? || env.dropped == {})
    ensures var st := Turn(w.chain, c, db, env);
            && GenuineDb(w.chain, st.db) && db.Keys <= st.db.Keys && (st.stopped || Progress(w, st))
  {
    TurnIsOne(w, c, db, env);
    ForwardTurnProgress(w, c, db, env);
    var (f, next) := ForwardNextRange(c.forward, Seen(db, env.forwardReads), env.forward);
    if next.Nothing? {
      assert ForwardTurn(w.chain, c, db, env) == State(c.(forward := f), db, false);
      BackwardTurnProgress(w, c.(forward := f), db, env);
    }
  }

  lemma TurnSeeks(w: World, c: Cursors, db: Db, env: Env)
    requires GoodWorld(w) && Progress(w, State(c, db, false)) && Seeking(w, State(c, db, false)) && Honest(w.chain, env)
    ensures var st := Turn(w.chain, c, db, env); st.stopped || Seeking(w, st)
  {
    TurnIsOne(w, c, db, env);
    ForwardTurnProgress(w, c, db, env);
    ForwardTurnSeeks(w, c, db, env);
    var (f, next) := ForwardNextRange(c.forward, Seen(db, env.forwardReads), env.forward);
    if next.Nothing? {
      assert ForwardTurn(w.chain, c, db, env) == State(c.(forward := f), db, false);
      BackwardTurnSeeks(w, c.(forward := f), db, env);
    }
  }

  lemma StepIsTurn(w: World, st: State, env: Env)
    requires !st.stopped && GenuineDb(w.chain, st.db)
    ensures var db := Inserted(w.chain, st.db, env.inserted, env.torn);
            && Step(w.chain, st, env) == Turn(w.chain, st.cursors, db, env)
            && GenuineDb(w.chain, db) && st.db.Keys <= db.Keys
            && (Progress(w, st) ==> Progress(w, State(st.cursors, db, false)))
            && (Seeking(w, st) ==> Seeking(w, State(st.cursors, db, false)))
  {
    var db := Inserted(w.chain, st.db, env.inserted, env.torn);
    ForwardGrows(w, st.cursors.forward, st.db, db);
    BackwardGrows(w, st.cursors.backward, st.cursors.synced, st.db, db);
  }

  // ----- Whole runs -----

  /** Even if the indexer drops logs, in block mode neither cursor passes a sequence that is not stored.
      And in whatever way the loop ends, nothing but the chain's logs is stored, so that it can be
      started again. */
  lemma {:induction false} RunProgress(w: World, db: Db, envs: seq<Env>)
    requires GoodWorld(w) && GenuineDb(w.chain, db)
    requires AllPlausible(w.chain, envs)
    requires w.mode.ByBlock? || forall i :: 0 <= i < |envs| ==> envs[i].dropped == {}
    ensures var end := Run(w.chain, Start(w, db), envs); GenuineDb(w.chain, end.db) && (end.stopped || Progress(w, end))
    decreases |envs|
  {
    StartIsGood(w, db);
    if envs != [] {
      var before, last := envs[..|envs| - 1], envs[|envs| - 1];
      RunProgress(w, db, before);
      var st := Run(w.chain, Start(w, db), before);
      if !st.stopped {
        StepIsTurn(w, st, last);
        TurnProgress(w, st.cursors, Inserted(w.chain, st.db, last.inserted, last.torn), last);
      }
    }
  }

  lemma {:induction false} RunSeeks(w: World, db: Db, envs: seq<Env>)
    requires GoodWorld(w) && GenuineDb(w.chain, db)
    requires AllHonest(w.chain, envs)
    ensures var end := Run(w.chain, Start(w, db), envs); end.stopped || (Progress(w, end) && Seeking(w, end))
    decreases |envs|
  {
    StartIsGood(w, db);
    RunProgress(w, db, envs);
    if envs != [] {
      var before, last := envs[..|envs| - 1], envs[|envs| - 1];
      RunSeeks(w, db, before);
      var st := Run(w.chain, Start(w, db), before);
      if !st.stopped {
        StepIsTurn(w, st, last);
        TurnSeeks(w, st.cursors, Inserted(w.chain, st.db, last.inserted, last.torn), last);
      }
    }
  }

  /** Completeness: once the backward cursor is done and the forward cursor has reached a count, every
      sequence below the count is stored, except that logs of block zero can be missing. */
  lemma CaughtUpMeansComplete(w: World, db: Db, envs: seq<Env>, k: nat)
    requires GoodWorld(w) && GenuineDb(w.chain, db)
    requires AllHonest(w.chain, envs)
    ensures var end := Run(w.chain, Start(w, db), envs);
            !end.stopped && end.cursors.synced && k < end.cursors.forward.nextSequence ==>
              && k < |w.chain|
              && (w.chain[k] > 0 ==> k in end.db && (end.db[k].Some? ==> end.db[k].value == w.chain[k]))
  {
    RunSeeks(w, db, envs);
  }

  /** Recovery: whatever was dropped, and wherever the cursor was, a batch that brings anything relevant
      leaves the sequence looked for stored, or the cursor back where it cannot miss it. */
  lemma RelevantBatchIsNotPassed(w: World, st: Sync, db: Db, range: Range, env: Env)
    requires GoodWorld(w) && GenuineDb(w.chain, db) && st.startBlock == w.tip && st.mode.ByBlock?
    requires st.direction.Forward? ==> ForwardProgress(w, st, db) && st.nextSequence < |w.chain|
    requires st.direction.Backward? ==> BackwardProgress(w, st, false, db)
    requires HasRelevant(FetchLogs(w.chain, st.mode, range, env.dropped, |w.chain|), st.direction, st.nextSequence)
    ensures var (st', db') := DigestOne(w.chain, st, db, range, env);
            && st'.nextSequence == st.nextSequence
            && (st.nextSequence in db'
                || if st.direction.Forward? then st'.nextBlock <= w.chain[st.nextSequence]
                   else st'.nextBlock >= w.chain[st.nextSequence])
  {
    var logs := FetchLogs(w.chain, st.mode, range, env.dropped, |w.chain|);
    DigestGrows(w.chain, st, db, range, env);
    if HasSequence(logs, st.nextSequence) {
      StoredExactly(w.chain, db, logs, env.unread, st.nextSequence);
    } else {
      RewindIsSafe(w, st, Seen(StoreLogs(db, logs, env.unread), Failing({}, env.updateReads)), logs);
    }
  }

  // ----- Over every run whatsoever -----

  /** At most one chunk and one block, or 101 sequences. */
  ghost predicate Bounded(w: World, range: Range) {
    range.from <= range.to <= range.from + if w.mode.ByBlock? then w.chunkSize else 100
  }

  lemma NextActionIsBounded(w: World, c: Cursors, forwardDb: Db, backwardDb: Db, forward: Reading, backward: Reading)
    requires Configured(w, c)
    ensures var (c', next) := NextAction(c, forwardDb, backwardDb, forward, backward);
            Configured(w, c') && (next.Query? ==> Bounded(w, next.range))
  {
    FastForwardExactly(c.forward, forwardDb);
    ForwardAsksExactly(FastForward(c.forward, forwardDb), forward);
    if c.synced {
      SyncedAsksNothing(c.backward, backwardDb, backward);
    } else {
      FastRewindExactly(c.backward, backwardDb);
      BackwardAsksExactly(c.backward, backwardDb, backward);
    }
  }

  lemma TurnConfigured(w: World, c: Cursors, db: Db, env: Env)
    requires Configured(w, c)
    ensures Configured(w, Turn(w.chain, c, db, env).cursors)
  {
    NextActionIsBounded(w, c, Seen(db, env.forwardReads), Seen(db, env.backwardReads), env.forward, env.backward);
  }

  /** Whatever is read, answered and stored, no query of any run is for more. */
  lemma {:induction false} QueriesAreBounded(w: World, db: Db, envs: seq<Env>, seen: Db, seen': Db, r: Reading, r': Reading)
    ensures var c := Run(w.chain, Start(w, db), envs).cursors;
            var next := NextAction(c, seen, seen', r, r').1;
            Configured(w, c) && (next.Query? ==> Bounded(w, next.range))
    decreases |envs|
  {
    if envs != [] {
      var before, last := envs[..|envs| - 1], envs[|envs| - 1];
      QueriesAreBounded(w, db, before, seen, seen', r, r');
      var st := Run(w.chain, Start(w, db), before);
      TurnConfigured(w, st.cursors, Inserted(w.chain, st.db, last.inserted, last.torn), last);
    }
    NextActionIsBounded(w, Run(w.chain, Start(w, db), envs).cursors, seen, seen', r, r');
  }

  /** Only a fetch or a store that fails ends the loop; if a cursor fails, it goes on. */
  lemma StopsExactly(chain: seq<nat>, c: Cursors, db: Db, env: Env)
    ensures var (c', next) := NextAction(c, Seen(db, env.forwardReads), Seen(db, env.backwardReads), env.forward, env.backward);
            && (Turn(chain, c, db, env).stopped ==> next.Query? && !env.fault.NoFault?)
            && (next.Query? && env.fault.FetchFails? ==> Turn(chain, c, db, env) == State(c', db, true))
            && (!next.Query? ==> Turn(chain, c, db, env) == State(c', db, false))
  {
  }

  /** The update sees what the turn has just stored: with a gap, a cursor goes back to the block of the
      sequence it has passed last, if the batch has brought it. */
  lemma UpdateSeesTheBatch(chain: seq<nat>, st: Sync, db: Db, range: Range, env: Env, k: nat)
    requires GenuineDb(chain, db) && env.updateReads == {} && k < |chain|
    requires InRange(chain, st.mode, range, k) && k !in env.dropped && (k !in db || k in env.unread || db[k].Some?)
    requires if st.direction.Forward? then k + 1 == st.nextSequence else k == st.nextSequence + 1
    requires var logs := FetchLogs(chain, st.mode, range, env.dropped, |chain|);
             HasRelevant(logs, st.direction, st.nextSequence) && !HasSequence(logs, st.nextSequence)
    ensures DigestOne(chain, st, db, range, env).0 == st.(nextBlock := chain[k])
  {
    var logs := FetchLogs(chain, st.mode, range, env.dropped, |chain|);
    FetchedExactly(chain, st.mode, range, env.dropped, |chain|, k);
    LogsOfOne(chain, logs, k);
    StoredBlock(db, logs, env.unread, k, chain[k]);
    var seen := Seen(StoreLogs(db, logs, env.unread), Failing({}, {}));
    if st.direction.Forward? {
      ForwardRewindsExactly(st, seen, logs);
    } else {
      BackwardRewindsExactly(st, seen, logs);
    }
  }

  /** All that is stored has its block, but for the exceptions. */
  ghost predicate Recorded(chain: seq<nat>, db: Db, exceptions: set<nat>) {
    forall k :: k in db ==> k < |chain| && (k in exceptions || db[k] == Some(chain[k]))
  }

  lemma LogsOfOne(chain: seq<nat>, logs: seq<Log>, k: nat)
    requires GenuineLogs(chain, logs)
    ensures forall i :: 0 <= i < |logs| && logs[i].sequence == k ==> k < |chain| && logs[i].block == chain[k]
  {
  }

  lemma StoreRecords(chain: seq<nat>, db: Db, logs: seq<Log>, unread: set<nat>)
    requires Recorded(chain, db, {}) && GenuineLogs(chain, logs)
    ensures Recorded(chain, StoreLogs(db, logs, unread), {})
  {
    forall k | k in StoreLogs(db, logs, unread)
      ensures k < |chain| && StoreLogs(db, logs, unread)[k] == Some(chain[k])
    {
      LogsOfOne(chain, logs, k);
      StoredBlock(db, logs, unread, k, if k < |chain| then chain[k] else 0);
    }
  }

  lemma PartRecords(chain: seq<nat>, db: Db, logs: seq<Log>, unread: set<nat>, at: nat, torn: bool)
    requires Recorded(chain, db, {}) && GenuineLogs(chain, logs) && at < |logs|
    ensures Recorded(chain, StorePart(db, logs, unread, at, torn), {logs[at].sequence})
  {
    forall k | k in StorePart(db, logs, unread, at, torn)
      ensures k < |chain| && (k == logs[at].sequence || StorePart(db, logs, unread, at, torn)[k] == Some(chain[k]))
    {
      LogsOfOne(chain, logs, k);
      PartBlock(db, logs, unread, at, torn, k, if k < |chain| then chain[k] else 0);
    }
  }

  lemma TurnRecords(chain: seq<nat>, c: Cursors, db: Db, env: Env)
    requires Recorded(chain, db, {})
    ensures var st := Turn(chain, c, db, env);
            (st.stopped || Recorded(chain, st.db, {})) && exists k :: Recorded(chain, st.db, {k})
  {
    var (c', next) := NextAction(c, Seen(db, env.forwardReads), Seen(db, env.backwardReads), env.forward, env.backward);
    assert Recorded(chain, db, {0});
    if next.Query? {
      var logs := FetchLogs(chain, c'.forward.mode, next.range, env.dropped, |chain|);
      FetchedExactly(chain, c'.forward.mode, next.range, env.dropped, |chain|, 0);
      StoreRecords(chain, db, logs, env.unread);
      assert Recorded(chain, StoreLogs(db, logs, env.unread), {0});
      if env.fault.StoreFails? && env.fault.at < |logs| {
        PartRecords(chain, db, logs, env.unread, env.fault.at, env.fault.torn);
      }
    }
  }

  /** Every log that a run stores gets its block, with the one exception of a log at which the store failed;
      unless others store logs without theirs. */
  lemma {:induction false} RunRecords(chain: seq<nat>, st: State, envs: seq<Env>)
    requires !st.stopped && Recorded(chain, st.db, {})
    requires forall i :: 0 <= i < |envs| ==> envs[i].torn == {}
    ensures var end := Run(chain, st, envs);
            (end.stopped || Recorded(chain, end.db, {})) && exists k :: Recorded(chain, end.db, {k})
    decreases |envs|
  {
    if envs == [] {
      assert Recorded(chain, st.db, {0});
    } else {
      var before, last := envs[..|envs| - 1], envs[|envs| - 1];
      RunRecords(chain, st, before);
      var now := Run(chain, st, before);
      if !now.stopped {
        TurnRecords(chain, now.cursors, Inserted(chain, now.db, last.inserted, last.torn), last);
      }
    }
  }

  // ----- What can be missed -----

  /** One turn at a fixed end of the chain: everything emitted, no errors, nothing dropped. */
  function Steady(chain: seq<nat>, tip: nat): Env {
    var reading, all := Reading(Some(|chain|), tip), Failing({}, {});
    Env({}, {}, reading, all, reading, all, {}, {}, {}, NoFault)
  }

  /** Caught up, with one of the sequences passed not stored. */
  ghost predicate Without(st: State, k: nat) {
    !st.stopped && st.cursors.synced && k < st.cursors.forward.nextSequence && k !in st.db
  }

  ghost predicate CaughtUpWithout(w: World, db: Db, envs: seq<Env>, k: nat) {
    GoodWorld(w) && GenuineDb(w.chain, db) && Without(Run(w.chain, Start(w, db), envs), k)
  }

  /** If the backward cursor is done because it has found sequence zero, and not because it has hit
      block zero, nothing at all is missing, though the indexer may have dropped logs. */
  lemma {:induction false} FoundSequenceZeroMeansComplete(w: World, db: Db, envs: seq<Env>, k: nat)
    requires GoodWorld(w) && GenuineDb(w.chain, db)
    requires AllPlausible(w.chain, envs)
    requires w.mode.ByBlock? || forall i :: 0 <= i < |envs| ==> envs[i].dropped == {}
    ensures var end := Run(w.chain, Start(w, db), envs); end.cursors.backward.nextSequence == 0 ==> !Without(end, k)
  {
    RunProgress(w, db, envs);
    var end := Run(w.chain, Start(w, db), envs);
    if Without(end, k) {
      BelowIsNotTheLast(w, end, k);
    }
  }

  /** Only below the sequence at which the backward cursor stopped can anything be missing. */
  lemma BelowIsNotTheLast(w: World, st: State, k: nat)
    requires GoodWorld(w) && Progress(w, st) && Without(st, k)
    ensures k < st.cursors.backward.nextSequence && k < |w.chain| - 1
  {
  }

  /** The exact condition of completeness: an honest run can miss the logs of block zero, but for the
      last log of the chain, and no others. */
  lemma MissedExactlyInBlockZero(chain: seq<nat>, k: nat)
    requires NonDecreasing(chain) && k < |chain|
    ensures (exists w: World, db: Db, envs: seq<Env> ::
               w.chain == chain && AllHonest(chain, envs) && CaughtUpWithout(w, db, envs, k))
            <==> chain[k] == 0 && k < |chain| - 1
  {
    forall w: World, db: Db, envs: seq<Env> |
      w.chain == chain && AllHonest(chain, envs) && CaughtUpWithout(w, db, envs, k)
      ensures chain[k] == 0 && k < |chain| - 1
    {
      CaughtUpMeansComplete(w, db, envs, k);
      LastIsNotMissed(w, db, envs, k);
    }
    if chain[k] == 0 && k < |chain| - 1 {
      var w, db, envs := BlockZeroMissed(chain, k);
    }
  }

  lemma LastIsNotMissed(w: World, db: Db, envs: seq<Env>, k: nat)
    requires CaughtUpWithout(w, db, envs, k) && AllPlausible(w.chain, envs)
    requires w.mode.ByBlock? || forall i :: 0 <= i < |envs| ==> envs[i].dropped == {}
    ensures k < |w.chain| - 1
  {
    RunProgress(w, db, envs);
    BelowIsNotTheLast(w, Run(w.chain, Start(w, db), envs), k);
  }

  lemma BlockZeroMissed(chain: seq<nat>, k: nat) returns (w: World, db: Db, envs: seq<Env>)
    requires NonDecreasing(chain) && k < |chain| - 1 && chain[k] == 0
    ensures w.chain == chain && AllHonest(chain, envs) && CaughtUpWithout(w, db, envs, k)
  {
    var last := |chain| - 1;
    if chain[last] > 0 {
      w, db := World(chain, |chain|, chain[last] + 1, chain[last], ByBlock), map[];
      var env := Steady(chain, w.tip);
      envs := [env, env];
      TwoTurnsMiss(w, env, k);
      RunTwice(chain, Start(w, map[]), env);
    } else {
      w, db := World(chain, |chain|, 0, 0, ByBlock), map[last := Some(0)];
      var env := Steady(chain, 0);
      envs := [env];
      BackwardEndsAtBlockZero(w, Start(w, db), env);
      assert envs[..0] == [] && Run(chain, Start(w, db), []) == Start(w, db);
    }
  }

  /** If the indexer may drop logs, in block mode any log but the last of the chain can be missed for
      good. */
  lemma DroppedLogCanBeMissedForGood(chain: seq<nat>, k: nat)
    requires NonDecreasing(chain) && k < |chain|
    ensures (exists w: World, db: Db, envs: seq<Env> ::
               w.chain == chain && w.mode.ByBlock? && AllPlausible(chain, envs) && CaughtUpWithout(w, db, envs, k))
            <==> k < |chain| - 1
  {
    forall w: World, db: Db, envs: seq<Env> |
      w.chain == chain && w.mode.ByBlock? && AllPlausible(chain, envs) && CaughtUpWithout(w, db, envs, k)
      ensures k < |chain| - 1
    {
      LastIsNotMissed(w, db, envs, k);
    }
    if k < |chain| - 1 {
      var w, envs := DroppedLogMissed(chain, k);
      assert CaughtUpWithout(w, map[], envs, k);
    }
  }

  lemma DroppedLogMissed(chain: seq<nat>, k: nat) returns (w: World, envs: seq<Env>)
    requires NonDecreasing(chain) && k < |chain| - 1
    ensures w.chain == chain && w.mode.ByBlock? && AllPlausible(chain, envs) && CaughtUpWithout(w, map[], envs, k)
  {
    var tip := chain[|chain| - 1];
    w := World(chain, |chain|, tip, tip, ByBlock);
    var env := Steady(chain, tip).(dropped := {k});
    envs := [env, env];
    TwoTurnsMiss(w, env, k);
    RunTwice(chain, Start(w, map[]), env);
  }

  /** One query brings the last log, but not the one of `k`, and leaves the cursor at block zero; in the
      next turn it is done. */
  lemma TwoTurnsMiss(w: World, env: Env, k: nat)
    requires GoodWorld(w) && w.count == |w.chain| && w.mode.ByBlock? && k < |w.chain| - 1
    requires SaturatingSub(w.tip, w.chunkSize) <= 1 && SaturatingSub(w.tip, w.chunkSize) <= w.chain[|w.chain| - 1]
    requires env == Steady(w.chain, w.tip).(dropped := env.dropped) && |w.chain| - 1 !in env.dropped
    requires k in env.dropped || w.chain[k] < SaturatingSub(w.tip, w.chunkSize)
    ensures Without(Step(w.chain, Step(w.chain, Start(w, map[]), env), env), k)
  {
    FirstTurnQueries(w, env, k);
    BackwardEndsAtBlockZero(w, FirstQueried(w, env), env);
  }

  /** A turn at block zero, with the sequence looked for stored and nothing new ahead. */
  lemma BackwardEndsAtBlockZero(w: World, st: State, env: Env)
    requires env == Steady(w.chain, w.tip).(dropped := env.dropped) && !st.stopped && !st.cursors.synced
    requires st.cursors.forward.nextSequence == |w.chain| && |w.chain| !in st.db
    requires st.cursors.backward.nextBlock == 0 && st.cursors.backward.nextSequence in st.db
    ensures var end := Step(w.chain, st, env);
            end.db == st.db && !end.stopped && end.cursors.synced && end.cursors.forward.nextSequence == |w.chain|
  {
    SteadySeesAll(w.chain, st.db, w.tip);
    assert FastForward(st.cursors.forward, st.db) == st.cursors.forward;
    assert FastRewind(st.cursors.backward, false, st.db) == (st.cursors.backward, true);
  }

  /** Nothing is inserted and all reads succeed. */
  lemma SteadySeesAll(chain: seq<nat>, db: Db, tip: nat)
    ensures var env := Steady(chain, tip);
            && Inserted(chain, db, env.inserted, env.torn) == db
            && Seen(db, env.forwardReads) == Seen(db, env.backwardReads) == Seen(db, Failing({}, env.updateReads)) == db
  {
    assert Inserted(chain, db, {}, {}) == db && Seen(db, Failing({}, {})) == db;
  }

  function FirstRange(w: World): Range {
    Range(SaturatingSub(w.tip, w.chunkSize), w.tip)
  }

  /** What the first query of the backward cursor brings. */
  function QueriedDb(w: World, env: Env): Db {
    StoreLogs(map[], FetchLogs(w.chain, ByBlock, FirstRange(w), env.dropped, |w.chain|), {})
  }

  /** The state it leaves if it reaches down to block zero or one and brings the last log. */
  function FirstQueried(w: World, env: Env): State
    requires w.count > 0
  {
    var c := Start(w, map[]).cursors;
    State(c.(backward := c.backward.(nextBlock := 0), direction := Backward), QueriedDb(w, env), false)
  }

  lemma FirstTurnQueries(w: World, env: Env, k: nat)
    requires GoodWorld(w) && w.count == |w.chain| && w.mode.ByBlock? && k < |w.chain| - 1
    requires SaturatingSub(w.tip, w.chunkSize) <= 1 && SaturatingSub(w.tip, w.chunkSize) <= w.chain[|w.chain| - 1]
    requires env == Steady(w.chain, w.tip).(dropped := env.dropped) && |w.chain| - 1 !in env.dropped
    requires k in env.dropped || w.chain[k] < SaturatingSub(w.tip, w.chunkSize)
    ensures Step(w.chain, Start(w, map[]), env) == FirstQueried(w, env)
    ensures var db := QueriedDb(w, env); GenuineDb(w.chain, db) && |w.chain| - 1 in db && k !in db
  {
    var c, last := Start(w, map[]).cursors, |w.chain| - 1;
    DigestStores(w.chain, c.backward, map[], FirstRange(w), env, last);
    DigestStores(w.chain, c.backward, map[], FirstRange(w), env, k);
    FetchedExactly(w.chain, ByBlock, FirstRange(w), env.dropped, |w.chain|, last);
    var moved := c.backward.(nextBlock := 0);
    assert NextAction(c, map[], map[], env.forward, env.backward)
           == (c.(backward := moved, direction := Backward), Query(FirstRange(w)));
    assert Update(moved, QueriedDb(w, env), FetchLogs(w.chain, ByBlock, FirstRange(w), env.dropped, |w.chain|)) == moved;
    SteadySeesAll(w.chain, map[], w.tip);
    SteadySeesAll(w.chain, QueriedDb(w, env), w.tip);
  }

  lemma RunTwice(chain: seq<nat>, st: State, env: Env)
    ensures Run(chain, st, [env, env]) == Step(chain, Step(chain, st, env), env)
  {
    assert [env][..0] == [] && [env, env][..1] == [env];
    assert Run(chain, st, [env]) == Step(chain, Run(chain, st, []), env);
  }

  // ----- A catch-up run ends -----

  ghost predicate Done(w: World, st: State) {
    st.cursors.synced && st.cursors.forward.nextSequence == |w.chain|
  }

  /** The measure that every turn decreases, lexicographically: sequences ahead; blocks ahead;
      sequences behind; whether the one looked for is still missing; blocks behind. */
  datatype Measure = Measure(ahead: nat, blocksAhead: nat, behind: nat, missing: nat, blocksBehind: nat)

  ghost function MeasureOf(w: World, tip: nat, st: State): Measure
    requires Progress(w, st)
  {
    var f, b := st.cursors.forward, st.cursors.backward;
    Measure(|w.chain| - f.nextSequence,
            if f.nextSequence == |w.chain| || f.mode.BySequence? then 0 else SaturatingSub(tip + 1, f.nextBlock),
            if st.cursors.synced then 0 else 1 + b.nextSequence,
            if b.nextSequence in st.db then 0 else 1,
            b.nextBlock)
  }

  ghost predicate Less(m: Measure, n: Measure) {
    || m.ahead < n.ahead
    || (m.ahead == n.ahead && m.blocksAhead < n.blocksAhead)
    || (m.ahead == n.ahead && m.blocksAhead == n.blocksAhead && m.behind < n.behind)
    || (m.ahead == n.ahead && m.blocksAhead == n.blocksAhead && m.behind == n.behind && m.missing < n.missing)
    || (m.ahead == n.ahead && m.blocksAhead == n.blocksAhead && m.behind == n.behind && m.missing == n.missing
        && m.blocksBehind < n.blocksBehind)
  }

  /** While the forward cursor is behind, each turn brings it on, though fast-forward may move its
      block back. */
  lemma ForwardTurnDecreases(w: World, st: State, tip: nat)
    requires GoodWorld(w) && Consistent(w.chain, |w.chain|, tip) && !st.stopped
    requires Progress(w, st) && Seeking(w, st) && st.cursors.forward.nextSequence < |w.chain|
    requires Progress(w, Turn(w.chain, st.cursors, st.db, Steady(w.chain, tip)))
    ensures Less(MeasureOf(w, tip, Turn(w.chain, st.cursors, st.db, Steady(w.chain, tip))), MeasureOf(w, tip, st))
  {
    var c, db, env := st.cursors, st.db, Steady(w.chain, tip);
    SteadySeesAll(w.chain, db, tip);
    FastForwardKeeps(w, c.forward, db, db);
    var f := FastForward(c.forward, db);
    if f.nextSequence < |w.chain| {
      ForwardQueryDecreases(w, f, db, tip, env);
      SteadyForwardTurn(w, c, f, db, tip);
    }
  }

  lemma SteadyForwardTurn(w: World, c: Cursors, f: Sync, db: Db, tip: nat)
    requires Configured(w, c) && f == FastForward(c.forward, db) && f.nextSequence < |w.chain|
    requires f.mode == w.mode && GetNextRange(f, Some(|w.chain|), tip).1.Query?
    ensures var env, (f', next) := Steady(w.chain, tip), GetNextRange(f, Some(|w.chain|), tip);
            var (f'', db') := DigestOne(w.chain, f', db, next.range, env);
            Turn(w.chain, c, db, env) == State(c.(forward := f'', direction := Forward), db', false)
  {
    var (f', next) := GetNextRange(f, Some(|w.chain|), tip);
    SteadySeesAll(w.chain, db, tip);
    DigestIsOne(w.chain, c.(forward := f', direction := Forward), db, next.range, Steady(w.chain, tip));
  }

  lemma ForwardQueryDecreases(w: World, f: Sync, db: Db, tip: nat, env: Env)
    requires GoodWorld(w) && Consistent(w.chain, |w.chain|, tip) && GenuineDb(w.chain, db)
    requires f.startBlock == w.tip && f.direction.Forward? && env.dropped == {}
    requires ForwardProgress(w, f, db) && ForwardSeeks(w, f, db)
    requires f.nextSequence < |w.chain| && f.nextSequence !in db
    ensures var (f', next) := GetNextRange(f, Some(|w.chain|), tip);
            && next.Query?
            && var f'' := DigestOne(w.chain, f', db, next.range, env).0;
               && f''.nextSequence >= f.nextSequence
               && (f.mode.BySequence? ==> f''.nextSequence > f.nextSequence)
               && (f.mode.ByBlock? ==> f.nextBlock < f''.nextBlock <= tip + 1)
  {
    var (f', next) := GetNextRange(f, Some(|w.chain|), tip);
    assert w.chain[f.nextSequence] >= f.nextBlock;
    ForwardDigestProgress(w, f, db, |w.chain|, tip, env);
    if f.mode.ByBlock? {
      NoForwardGap(w, f', next.range);
    }
  }

  lemma BackwardTurnDecreases(w: World, st: State, tip: nat)
    requires GoodWorld(w) && !st.stopped
    requires Progress(w, st) && Seeking(w, st) && st.cursors.forward.nextSequence == |w.chain| && !st.cursors.synced
    requires Progress(w, Turn(w.chain, st.cursors, st.db, Steady(w.chain, tip)))
    ensures Less(MeasureOf(w, tip, Turn(w.chain, st.cursors, st.db, Steady(w.chain, tip))), MeasureOf(w, tip, st))
  {
    var c, db, env := st.cursors, st.db, Steady(w.chain, tip);
    SteadySeesAll(w.chain, db, tip);
    FastForwardKeeps(w, c.forward, db, db);
    FastRewindKeeps(w, c.backward, c.synced, db, db);
    var (b, synced) := FastRewind(c.backward, c.synced, db);
    if !synced {
      BackwardQueryDecreases(w, b, db, tip, env);
      var (b', next) := GetNextRange(b, Some(|w.chain|), tip);
      var c' := c.(forward := c.forward.(nextBlock := tip), backward := b', synced := false, direction := Backward);
      DigestIsOne(w.chain, c', db, next.range, env);
    }
  }

  lemma BackwardQueryDecreases(w: World, b: Sync, db: Db, tip: nat, env: Env)
    requires GoodWorld(w) && GenuineDb(w.chain, db)
    requires b.startBlock == w.tip && b.direction.Backward? && env.dropped == {}
    requires BackwardProgress(w, b, false, db) && BackwardSeeks(w, b, false, db) && b.nextSequence !in db
    ensures var (b', next) := GetNextRange(b, Some(|w.chain|), tip);
            && next.Query?
            && var (b'', db') := DigestOne(w.chain, b', db, next.range, env);
               && b''.nextSequence <= b.nextSequence
               && (b''.nextSequence < b.nextSequence || b.nextSequence in db' || b''.nextBlock < b.nextBlock)
  {
    var (b', next) := GetNextRange(b, Some(|w.chain|), tip);
    assert w.chain[b.nextSequence] <= b.nextBlock;
    BackwardDigestProgress(w, b, db, Some(|w.chain|), tip, env);
    DigestGrows(w.chain, b', db, next.range, env);
    if b.mode.ByBlock? {
      NoBackwardGap(w, b', next.range);
    }
  }

  function RunSteady(chain: seq<nat>, tip: nat, st: State, turns: nat): State
    decreases turns
  {
    if turns == 0 then st else RunSteady(chain, tip, Step(chain, st, Steady(chain, tip)), turns - 1)
  }

  /** From any state of an honest run, at a fixed tip, finitely many turns bring both cursors to their
      ends; and then everything but logs of block zero is stored. */
  lemma {:induction false} CatchUpEnds(w: World, st: State, tip: nat) returns (turns: nat)
    requires GoodWorld(w) && Consistent(w.chain, |w.chain|, tip)
    requires !st.stopped && Progress(w, st) && Seeking(w, st)
    ensures var end := RunSteady(w.chain, tip, st, turns);
            && Done(w, end) && !end.stopped
            && forall k :: 0 <= k < |w.chain| && w.chain[k] > 0 ==> k in end.db
    decreases MeasureOf(w, tip, st).ahead, MeasureOf(w, tip, st).blocksAhead, MeasureOf(w, tip, st).behind,
              MeasureOf(w, tip, st).missing, MeasureOf(w, tip, st).blocksBehind
  {
    if Done(w, st) {
      turns := 0;
    } else {
      var env := Steady(w.chain, tip);
      SteadySeesAll(w.chain, st.db, tip);
      TurnProgress(w, st.cursors, st.db, env);
      TurnSeeks(w, st.cursors, st.db, env);
      if st.cursors.forward.nextSequence < |w.chain| {
        ForwardTurnDecreases(w, st, tip);
      } else {
        BackwardTurnDecreases(w, st, tip);
      }
      turns := CatchUpEnds(w, Step(w.chain, st, env), tip);
      turns := turns + 1;
    }
  }
}
