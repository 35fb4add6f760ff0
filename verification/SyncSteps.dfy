/** What the steps of the cursors come to, said of the database, the readings and the logs alone. */
module SyncSteps {
  import opened Wrappers
  import opened SyncCursors

  // ----- Moving over what is stored -----

  /** The block is that of the last of the sequences from `lo` to `hi` (excluded) whose block is known, and
      the old one if there is none. */
  ghost predicate LastKnown(db: Db, lo: nat, hi: nat, was: nat, block: nat) {
    || (exists k :: lo <= k < hi && k in db && db[k] == Some(block)
                    && forall j :: k < j < hi && j in db ==> db[j] == None)
    || (block == was && forall j :: lo <= j < hi && j in db ==> db[j] == None)
  }

  /** The same from above: that of the lowest of the sequences from `lo` to `hi` whose block is known. */
  ghost predicate LowestKnown(db: Db, lo: nat, hi: nat, was: nat, block: nat) {
    || (exists k :: lo <= k < hi && k in db && db[k] == Some(block)
                    && forall j :: lo <= j < k && j in db ==> db[j] == None)
    || (block == was && forall j :: lo <= j < hi && j in db ==> db[j] == None)
  }

  /** Fast-forward stops at the first sequence that is not stored, and moves to the block of the last one
      it has passed. */
  lemma {:induction false} FastForwardExactly(st: Sync, db: Db)
    ensures var st' := FastForward(st, db);
            && st' == st.(nextBlock := st'.nextBlock, nextSequence := st'.nextSequence)
            && st.nextSequence <= st'.nextSequence && st'.nextSequence !in db
            && (forall k :: st.nextSequence <= k < st'.nextSequence ==> k in db)
            && LastKnown(db, st.nextSequence, st'.nextSequence, st.nextBlock, st'.nextBlock)
    decreases Ahead(db, st.nextSequence)
  {
    if st.nextSequence in db {
      assert st.nextSequence in Ahead(db, st.nextSequence) - Ahead(db, st.nextSequence + 1);
      var next := st.(nextBlock := db[st.nextSequence].GetOr(st.nextBlock), nextSequence := st.nextSequence + 1);
      FastForwardExactly(next, db);
      var end := FastForward(next, db);
      LastKnownFrom(db, st.nextSequence, end.nextSequence, st.nextBlock, next.nextBlock, end.nextBlock);
    }
  }

  lemma LastKnownFrom(db: Db, lo: nat, hi: nat, was: nat, first: nat, block: nat)
    requires lo < hi && lo in db && first == db[lo].GetOr(was) && LastKnown(db, lo + 1, hi, first, block)
    ensures LastKnown(db, lo, hi, was, block)
  {
    if k :| lo + 1 <= k < hi && k in db && db[k] == Some(block) && forall j :: k < j < hi && j in db ==> db[j] == None {
      assert lo <= k < hi;
    } else if db[lo].Some? {
      assert lo <= lo < hi && db[lo] == Some(block);
    }
  }

  /** Fast-rewind passes downwards over what is stored, to the block of the last one it has passed. It is
      done exactly if it stops at a stored sequence, and then that is sequence zero or it is at block
      zero. */
  lemma {:induction false} FastRewindExactly(st: Sync, db: Db)
    ensures var (st', done) := FastRewind(st, false, db);
            && st' == st.(nextBlock := st'.nextBlock, nextSequence := st'.nextSequence)
            && st'.nextSequence <= st.nextSequence && (done <==> st'.nextSequence in db)
            && (done ==> st'.nextSequence == 0 || st'.nextBlock == 0)
            && (forall k :: st'.nextSequence < k <= st.nextSequence ==> k in db)
            && LowestKnown(db, st'.nextSequence + 1, st.nextSequence + 1, st.nextBlock, st'.nextBlock)
    decreases st.nextSequence
  {
    if st.nextSequence in db && st.nextSequence > 0 && st.nextBlock > 0 {
      var top := st.nextSequence;
      var next := st.(nextBlock := db[top].GetOr(st.nextBlock), nextSequence := top - 1);
      FastRewindExactly(next, db);
      var end := FastRewind(next, false, db).0;
      LowestKnownTo(db, end.nextSequence + 1, top, st.nextBlock, next.nextBlock, end.nextBlock);
    }
  }

  /** And it passes a sequence only if it is not at block zero then. */
  lemma {:induction false} PassesAboveBlockZero(st: Sync, db: Db, m: nat, block: nat)
    requires FastRewind(st, false, db).0.nextSequence < m <= st.nextSequence
    requires LowestKnown(db, m + 1, st.nextSequence + 1, st.nextBlock, block)
    ensures block > 0
    decreases st.nextSequence
  {
    var top := st.nextSequence;
    if m < top {
      var next := st.(nextBlock := db[top].GetOr(st.nextBlock), nextSequence := top - 1);
      LowestKnownBelow(db, m + 1, top, st.nextBlock, next.nextBlock, block);
      PassesAboveBlockZero(next, db, m, block);
    }
  }

  lemma LowestKnownTo(db: Db, lo: nat, top: nat, was: nat, first: nat, block: nat)
    requires lo <= top && top in db && first == db[top].GetOr(was) && LowestKnown(db, lo, top, first, block)
    ensures LowestKnown(db, lo, top + 1, was, block)
  {
    if k :| lo <= k < top && k in db && db[k] == Some(block) && forall j :: lo <= j < k && j in db ==> db[j] == None {
      assert lo <= k < top + 1;
    } else if db[top].Some? {
      assert lo <= top < top + 1 && db[top] == Some(block);
    }
  }

  lemma LowestKnownBelow(db: Db, lo: nat, top: nat, was: nat, first: nat, block: nat)
    requires lo <= top && top in db && first == db[top].GetOr(was) && LowestKnown(db, lo, top + 1, was, block)
    ensures LowestKnown(db, lo, top, first, block)
  {
    if k :| lo <= k < top + 1 && k in db && db[k] == Some(block)
            && forall j :: lo <= j < k && j in db ==> db[j] == None {
      if k < top {
        assert lo <= k < top;
      }
    }
  }

  // ----- Queries -----

  /** In block mode, a query of a forward cursor starts at its block, and goes one chunk on or to the tip. */
  ghost predicate ForwardBlocks(st: Sync, tip: nat, range: Range, after: Sync) {
    && range.from == st.nextBlock <= range.to && after == st.(nextBlock := range.to + 1)
    && (range.to == tip <= st.nextBlock + st.chunkSize || range.to == st.nextBlock + st.chunkSize <= tip)
  }

  /** In sequence mode, it has at most 101 sequences, all below the count. */
  ghost predicate ForwardSequences(st: Sync, count: nat, range: Range, after: Sync) {
    && range.from == st.nextSequence <= range.to && after == st.(nextSequence := range.to + 1)
    && (range.to == count - 1 <= st.nextSequence + 100 || range.to == st.nextSequence + 100 <= count - 1)
  }

  /** A query of a backward cursor ends at its block, or at its sequence, and starts one chunk, or 100
      sequences, before, or at zero. */
  ghost predicate BackwardBlocks(st: Sync, range: Range, after: Sync) {
    && range.to == st.nextBlock
    && (if st.nextBlock < st.chunkSize then range.from == 0 else range.from + st.chunkSize == range.to)
    && after == st.(nextBlock := after.nextBlock)
    && (if range.from == 0 then after.nextBlock == 0 else after.nextBlock + 1 == range.from)
  }

  ghost predicate BackwardSequences(st: Sync, range: Range, after: Sync) {
    && range.to == st.nextSequence
    && (if st.nextSequence < 100 then range.from == 0 else range.from + 100 == range.to)
    && after == st.(nextSequence := after.nextSequence)
    && (if range.from == 0 then after.nextSequence == 0 else after.nextSequence + 1 == range.from)
  }

  /** What a caught-up forward cursor does with each reading. It asks exactly if the count is ahead of it
      (and, in block mode, its block is not past the tip); if the count is where it is, it goes to the tip,
      so that the next block query starts there. */
  lemma ForwardAsksExactly(st: Sync, reading: Reading)
    requires st.direction.Forward?
    ensures var (after, next) := CaughtUpNextRange(st, reading);
            match reading
            case Unavailable => next == Failed && after == st
            case Reading(None, _) => next == Nothing && after == st
            case Reading(Some(count), tip) =>
              && !next.Failed?
              && (next.Query? <==> st.nextSequence < count && (st.mode.ByBlock? ==> st.nextBlock <= tip))
              && (next.Query? ==> if st.mode.ByBlock? then ForwardBlocks(st, tip, next.range, after)
                                  else ForwardSequences(st, count, next.range, after))
              && (st.nextSequence == count ==> after == st.(nextBlock := tip))
              && (st.nextSequence > count ==> after == st)
              && (st.nextSequence < count && next.Nothing? ==> after == st.(nextBlock := tip + 1))
  {
  }

  /** So once the forward cursor has found everything up to the count, and nothing is stored in between, its
      next block query starts at the tip it has read then. */
  lemma NextQueryStartsAtTheTip(st: Sync, db: Db, count: nat, tip: nat, count': nat, tip': nat)
    requires st.direction.Forward? && st.mode.ByBlock? && st.nextSequence <= count < count' && tip <= tip'
    requires count !in db && forall k :: st.nextSequence <= k < count ==> k in db
    ensures var (caughtUp, next) := ForwardNextRange(st, db, Reading(Some(count), tip));
            var (_, next') := ForwardNextRange(caughtUp, db, Reading(Some(count'), tip'));
            next == Nothing && next' == Query(Range(tip, if tip + st.chunkSize <= tip' then tip + st.chunkSize else tip'))
  {
    FastForwardExactly(st, db);
    var caughtUp := FastForward(st, db);
    assert caughtUp.nextSequence == count by {
      assert caughtUp.nextSequence < count ==> caughtUp.nextSequence in db;
    }
    ForwardAsksExactly(caughtUp, Reading(Some(count), tip));
    ForwardAsksExactly(caughtUp.(nextBlock := tip), Reading(Some(count'), tip'));
  }

  /** What a backward cursor does that is not done: it asks whatever is read, except that in sequence mode
      it needs a count. */
  lemma BackwardAsksExactly(st: Sync, db: Db, reading: Reading)
    requires st.direction.Backward?
    ensures var (rewound, done) := FastRewind(st, false, db);
            var (after, synced, next) := BackwardNextRange(st, false, db, reading);
            && (synced <==> done)
            && (done ==> next == Nothing && after == rewound)
            && (!done ==>
                  && (next == Failed <==> reading.Unavailable? || (st.mode.BySequence? && reading.count.None?))
                  && (next.Failed? ==> after == rewound) && (next.Failed? || next.Query?)
                  && (next.Query? ==> if st.mode.ByBlock? then BackwardBlocks(rewound, next.range, after)
                                      else BackwardSequences(rewound, next.range, after)))
  {
    FastRewindExactly(st, db);
  }

  /** Once done, it never asks again. */
  lemma SyncedAsksNothing(st: Sync, db: Db, reading: Reading)
    ensures BackwardNextRange(st, true, db, reading) == (st, true, Nothing)
  {
  }

  /** The backward cursor has its turn exactly if the forward cursor has nothing to ask; an error of either is
      passed on. The direction is that of the last query. */
  lemma ForwardComesFirst(c: Cursors, forwardDb: Db, backwardDb: Db, forward: Reading, backward: Reading)
    ensures var (c', next) := NextAction(c, forwardDb, backwardDb, forward, backward);
            var asked := ForwardNextRange(c.forward, forwardDb, forward).1;
            && c'.forward == ForwardNextRange(c.forward, forwardDb, forward).0
            && (!asked.Nothing? ==> next == asked && c'.backward == c.backward && c'.synced == c.synced)
            && (asked.Nothing? ==>
                  (c'.backward, c'.synced, next) == BackwardNextRange(c.backward, c.synced, backwardDb, backward))
            && c'.direction == (if asked.Query? then Forward else if next.Query? then Backward else c.direction)
  {
  }

  // ----- Rewinding -----

  /** A forward cursor goes back exactly if the logs have something later than what it looks for, but not
      that: to the block of the sequence before it, if that is known, or else to the start. */
  lemma ForwardRewindsExactly(st: Sync, db: Db, logs: seq<Log>)
    requires st.direction.Forward?
    ensures var gap := (exists i :: 0 <= i < |logs| && logs[i].sequence > st.nextSequence)
                       && !exists i :: 0 <= i < |logs| && logs[i].sequence == st.nextSequence;
            var before := if st.nextSequence == 0 then 0 else st.nextSequence - 1;
            Update(st, db, logs)
            == if !gap then st
               else if before in db && db[before].Some? then st.(nextBlock := db[before].value)
               else st.(nextBlock := st.startBlock)
  {
    GapIsRewound(st, db, logs);
  }

  /** A backward cursor likewise, with what is earlier and the sequence after it. */
  lemma BackwardRewindsExactly(st: Sync, db: Db, logs: seq<Log>)
    requires st.direction.Backward?
    ensures var gap := (exists i :: 0 <= i < |logs| && logs[i].sequence < st.nextSequence)
                       && !exists i :: 0 <= i < |logs| && logs[i].sequence == st.nextSequence;
            var after := st.nextSequence + 1;
            Update(st, db, logs)
            == if !gap then st
               else if after in db && db[after].Some? then st.(nextBlock := db[after].value)
               else st.(nextBlock := st.startBlock)
  {
    GapIsRewound(st, db, logs);
  }

  lemma GapIsRewound(st: Sync, db: Db, logs: seq<Log>)
    ensures HasSequence(logs, st.nextSequence) <==> exists i :: 0 <= i < |logs| && logs[i].sequence == st.nextSequence
    ensures !HasSequence(logs, st.nextSequence) ==>
              (HasRelevant(logs, st.direction, st.nextSequence) <==>
               if st.direction.Forward? then exists i :: 0 <= i < |logs| && logs[i].sequence > st.nextSequence
               else exists i :: 0 <= i < |logs| && logs[i].sequence < st.nextSequence)
  {
    if HasRelevant(logs, st.direction, st.nextSequence) {
      var i :| 0 <= i < |logs|
               && if st.direction.Forward? then logs[i].sequence >= st.nextSequence else logs[i].sequence <= st.nextSequence;
      assert logs[i].sequence == st.nextSequence ==> HasSequence(logs, st.nextSequence);
    }
  }

  // ----- Storing -----

  /** What is stored of a sequence that the batch has in one block, if it has it at all: it gets that block
      if it was not there, or its look-up failed; otherwise, and if it is not in the batch, its entry stays as
      it was. */
  lemma {:induction false} StoredBlock(db: Db, logs: seq<Log>, unread: set<nat>, k: nat, block: nat)
    requires forall i :: 0 <= i < |logs| && logs[i].sequence == k ==> logs[i].block == block
    ensures var after, has := StoreLogs(db, logs, unread), exists i :: 0 <= i < |logs| && logs[i].sequence == k;
            && (k in after <==> k in db || has)
            && (has && (k !in db || k in unread) ==> after[k] == Some(block))
            && (k in db && !(has && k in unread) ==> after[k] == db[k])
    decreases |logs|
  {
    if logs != [] {
      var before, last := logs[..|logs| - 1], logs[|logs| - 1];
      StoredBlock(db, before, unread, k, block);
      if i :| 0 <= i < |before| && before[i].sequence == k {
        assert logs[i].sequence == k;
      }
      if i :| 0 <= i < |logs| && logs[i].sequence == k && last.sequence != k {
        assert before[i].sequence == k;
      }
    }
  }

  /** What a store that fails at log `at` leaves: all before it stored, of the log itself at most the log
      without its block, and nothing of the others. */
  lemma PartBlock(db: Db, logs: seq<Log>, unread: set<nat>, at: nat, torn: bool, k: nat, block: nat)
    requires at < |logs|
    requires forall i :: 0 <= i < |logs| && logs[i].sequence == k ==> logs[i].block == block
    ensures var after := StorePart(db, logs, unread, at, torn);
            var has := exists i :: 0 <= i < at && logs[i].sequence == k;
            var half := torn && logs[at].sequence == k && k !in db && !has;
            && (k in after <==> k in db || has || half)
            && (has && (k !in db || k in unread) ==> after[k] == Some(block))
            && (half ==> after[k] == None)
            && (k in db && !(has && k in unread) ==> after[k] == db[k])
  {
    var before := logs[..at];
    StoredBlock(db, before, unread, k, block);
    assert forall i :: 0 <= i < at ==> before[i] == logs[i];
  }

  // ----- The first steps -----

  /** The cursors set out from the tip and the count read first: what comes is asked for from that tip on,
      and what was there from that tip back, unless there was nothing. */
  lemma SetOut(chunkSize: nat, count: nat, tip: nat, count': nat, tip': nat, db: Db)
    requires count < count' && tip <= tip' && count !in db
    ensures var c := NewCursors(chunkSize, ByBlock, count, tip);
            && ForwardNextRange(c.forward, db, Reading(Some(count'), tip')).1
               == Query(Range(tip, if tip + chunkSize <= tip' then tip + chunkSize else tip'))
            && (c.synced <==> count == 0)
            && (count > 0 && count - 1 !in db ==>
                  BackwardNextRange(c.backward, false, db, Reading(Some(count'), tip')).2
                  == Query(Range(if tip <= chunkSize then 0 else tip - chunkSize, tip)))
  {
    var c := NewCursors(chunkSize, ByBlock, count, tip);
    ForwardAsksExactly(c.forward, Reading(Some(count'), tip'));
    BackwardAsksExactly(c.backward, db, Reading(Some(count'), tip'));
  }
}
