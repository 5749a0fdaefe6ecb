/** Whole runs: one commit, then recoveries interrupted by faults, by process deaths and by
    power losses, until one of them completes. */
module CrashRuns {
  import opened Storage
  import opened Wrappers
  import opened Persistence
  import opened JournalModel
  import opened Cleanup
  import opened Rollback
  import opened Preparation
  import opened Commit
  import opened Recovery

  // ---- the durable write-ahead invariant -----------------------------------------------

  /** What every durable state must satisfy: under a prepared journal each destination is at
      its before image, or at its after image with its exact before stage there; under a
      committed one each is at its after image; without one they are all on the same side. */
  ghost predicate WriteAhead(txn: Txn, outside: set<Path>, m: Namespace)
  {
    txn.journal in outside ||
    match Get(m, txn.journal)
    case Some(c) =>
      || (c == BytesOf(txn, Prepared) && forall e :: e in txn.entries ==>
            BeforeAt(e, outside, m) || (AfterAt(e, outside, m) && BeforeHeld(e, outside, m)))
      || (c == BytesOf(txn, Committed) && forall e :: e in txn.entries ==> AfterAt(e, outside, m))
    case None =>
      || (forall e :: e in txn.entries ==> BeforeAt(e, outside, m))
      || (forall e :: e in txn.entries ==> AfterAt(e, outside, m))
  }

  ghost predicate AlwaysWriteAhead(txn: Txn, outside: set<Path>, d: Disk)
  {
    forall m :: m in Images(d) ==> WriteAhead(txn, outside, m)
  }

  lemma PhaseWritesAhead(phase: Phase, txn: Txn, outside: set<Path>, m: Namespace, v: Namespace)
    requires PhaseAt(phase, txn, outside, m, v)
    ensures WriteAhead(txn, outside, m)
  {
    if txn.journal in outside { return; }
    assert phase.Closing? ==> phase.state.Prepared? || phase.state.Committed?;
    forall e | e in txn.entries
      ensures Get(m, txn.journal) == Some(BytesOf(txn, Prepared)) ==>
        BeforeAt(e, outside, m) || (AfterAt(e, outside, m) && BeforeHeld(e, outside, m))
      ensures Get(m, txn.journal) == Some(BytesOf(txn, Committed)) ==> AfterAt(e, outside, m)
      ensures txn.journal !in m ==> if Side(phase).Prepared? then BeforeAt(e, outside, m) else AfterAt(e, outside, m)
    {
      assert EntryAt(phase, txn.journal, e, outside, m, v);
    }
  }

  /** Every phase keeps the write-ahead invariant in every crash image. */
  lemma PhasesWriteAhead(phase: Phase, txn: Txn, outside: set<Path>, d: Disk)
    requires Keeps(d, In(phase, txn, outside))
    ensures AlwaysWriteAhead(txn, outside, d)
  {
    forall m | m in Images(d) ensures WriteAhead(txn, outside, m) {
      PhaseWritesAhead(phase, txn, outside, m, Visible(d));
    }
  }

  // ---- where recovery is not safe ------------------------------------------------------

  /** Both markers can be left: what a caller can check before recovering. */
  predicate Undecided(d: Disk, txn: Txn) {
    && CanHold(d.durable, d.pending, txn.journal, Some(BytesOf(txn, Prepared)))
    && CanHold(d.durable, d.pending, txn.journal, Some(BytesOf(txn, Committed)))
  }

  /** The check decides exactly whether a crash can leave both. */
  lemma UndecidedExactly(d: Disk, txn: Txn)
    ensures Undecided(d, txn) <==> !MarkerDecided(d, txn)
  {
    CanHoldExactly(d.durable, d.pending, txn.journal, Some(BytesOf(txn, Prepared)));
    CanHoldExactly(d.durable, d.pending, txn.journal, Some(BytesOf(txn, Committed)));
  }

  lemma UndecidedMoveTears(txn: Txn, outside: set<Path>, d: Disk, e: Entry, op: Op, n: Namespace)
    requires ValidRoles(txn) && e in txn.entries && e.before != e.after
    requires op == Move(e.beforePath, e.destination, e.before)
    requires txn.journal !in outside && e.destination !in outside
    requires n in Images(d) && Get(n, txn.journal) == Some(BytesOf(txn, Committed))
    ensures !AlwaysWriteAhead(txn, outside, Append(d, op))
  {
    EntriesApart(txn, e, e);
    AppendOne(d, op);
    var torn := Apply(n, op);
    assert torn in Images(Append(d, op));
    assert !WriteAhead(txn, outside, torn);
  }

  /** A recovery that finds the prepared journal keeps the write-ahead invariant through its
      first rename exactly when no crash can still leave the committed marker. */
  lemma RollbackSafeExactlyWhenDecided(txn: Txn, outside: set<Path>, d: Disk, e: Entry)
    requires ValidRoles(txn) && e in txn.entries && e.before != e.after
    requires txn.journal !in outside && e.destination !in outside
    requires Keeps(d, In(Marking, txn, outside))
    requires Get(Visible(d), txn.journal) == Some(BytesOf(txn, Prepared))
    requires Get(Visible(d), e.beforePath) == Some(e.before)
    ensures e.beforePath.dir == e.destination.dir
    ensures AlwaysWriteAhead(txn, outside, Append(d, Move(e.beforePath, e.destination, e.before)))
       <==> MarkerDecided(d, txn)
  {
    EntriesApart(txn, e, e);
    var op: Op := Move(e.beforePath, e.destination, e.before);
    KeepsVisible(d, In(Marking, txn, outside));
    assert PhaseAt(Marking, txn, outside, Visible(d), Visible(d));
    assert EntryAt(Marking, txn.journal, e, outside, Visible(d), Visible(d));
    if MarkerDecided(d, txn) {
      MarkerDecides(txn, outside, d);
      Weaken(Applying, Rolling, txn, outside, d);
      RestoreKeepsRolling(Rolling, txn, outside, d, e);
      PhasesWriteAhead(Rolling, txn, outside, Append(d, op));
    } else {
      var n :| n in Images(d) && Get(n, txn.journal) == Some(BytesOf(txn, Committed));
      UndecidedMoveTears(txn, outside, d, e, op, n);
    }
  }

  lemma UndecidedDropTears(txn: Txn, outside: set<Path>, d: Disk, e: Entry, n: Namespace)
    requires ValidRoles(txn) && e in txn.entries && e.before != e.after
    requires txn.journal !in outside && e.destination !in outside && e.beforePath !in outside
    requires PhaseAt(Marking, txn, outside, n, Visible(d)) && n in Images(d)
    requires Get(n, txn.journal) == Some(BytesOf(txn, Prepared))
    ensures !AlwaysWriteAhead(txn, outside, Append(d, Drop(e.beforePath)))
  {
    EntriesApart(txn, e, e);
    AppendOne(d, Drop(e.beforePath));
    var torn := Apply(n, Drop(e.beforePath));
    assert torn in Images(Append(d, Drop(e.beforePath)));
    assert EntryAt(Marking, txn.journal, e, outside, n, Visible(d));
    assert !WriteAhead(txn, outside, torn);
  }

  /** A recovery that finds the committed journal keeps the write-ahead invariant through its
      first removal of a before stage exactly when no crash can still leave the prepared one. */
  lemma ClearingSafeExactlyWhenDecided(txn: Txn, outside: set<Path>, d: Disk, e: Entry)
    requires ValidRoles(txn) && e in txn.entries && e.before != e.after
    requires txn.journal !in outside && e.destination !in outside && e.beforePath !in outside
    requires Keeps(d, In(Marking, txn, outside))
    requires Get(Visible(d), txn.journal) == Some(BytesOf(txn, Committed))
    ensures AlwaysWriteAhead(txn, outside, Append(d, Drop(e.beforePath))) <==> MarkerDecided(d, txn)
  {
    KeepsVisible(d, In(Marking, txn, outside));
    assert PhaseAt(Marking, txn, outside, Visible(d), Visible(d));
    assert EntryAt(Marking, txn.journal, e, outside, Visible(d), Visible(d));
    if MarkerDecided(d, txn) {
      MarkerDecides(txn, outside, d);
      DropStageKeeps(Clearing, txn, outside, d, e, e.beforePath);
      PhasesWriteAhead(Clearing, txn, outside, Append(d, Drop(e.beforePath)));
    } else {
      var n :| n in Images(d) && Get(n, txn.journal) == Some(BytesOf(txn, Prepared));
      UndecidedDropTears(txn, outside, d, e, n);
    }
  }

  /** Flushing one directory leaves a crash free to keep any image of the others. */
  lemma {:induction false} FlushLeavesOthers(d: Disk, dir: string, n: Namespace) returns (n': Namespace)
    requires n in Images(d)
    ensures n' in Images(Flush(d, dir)) && Agrees(n', n, Visible(d), dir)
    decreases |d.pending|
  {
    if d.pending == [] { return n; }
    var k := |d.pending| - 1;
    var front, last := d.(pending := d.pending[..k]), d.pending[k];
    FlushLast(d, dir);
    var f := Flush(front, dir);
    var n0 :| n0 in Images(front) && (n == n0 || n == Apply(n0, last));
    var m := FlushLeavesOthers(front, dir, n0);
    if last.path.dir == dir {
      n' := Apply(m, last);
      ApplyFirstImage(f.durable, f.pending, last, m);
    } else {
      AppendOne(f, last);
      n' := if n == n0 then m else Apply(m, last);
    }
    AgreesApply(m, n0, Visible(front), dir, last);
  }

  /** `n'` is as visible in the flushed directory and as `n` everywhere else. */
  ghost predicate Agrees(n': Namespace, n: Namespace, v: Namespace, dir: string)
  {
    forall p: Path :: Get(n', p) == if p.dir == dir then Get(v, p) else Get(n, p)
  }

  lemma AgreesApply(m: Namespace, n: Namespace, v: Namespace, dir: string, op: Op)
    requires Agrees(m, n, v, dir)
    ensures Agrees(Apply(m, op), Apply(n, op), Apply(v, op), dir)
    ensures op.path.dir == dir ==> Agrees(Apply(m, op), n, Apply(v, op), dir)
    ensures op.path.dir != dir ==> Agrees(m, n, Apply(v, op), dir)
  {
    forall p: Path
      ensures Get(Apply(m, op), p) == if p.dir == dir then Get(Apply(v, op), p) else Get(Apply(n, op), p)
      ensures op.path.dir == dir ==>
        Get(Apply(m, op), p) == if p.dir == dir then Get(Apply(v, op), p) else Get(n, p)
      ensures op.path.dir != dir ==>
        Get(m, p) == if p.dir == dir then Get(Apply(v, op), p) else Get(n, p)
    {
      assert Get(m, p) == if p.dir == dir then Get(v, p) else Get(n, p);
    }
  }

  lemma {:induction false} ApplyFirstImage(base: Namespace, ops: seq<Op>, op: Op, m: Namespace)
    requires forall o :: o in ops ==> o.path.dir != op.path.dir
    requires m in ImagesOf(base, ops)
    ensures Apply(m, op) in ImagesOf(Apply(base, op), ops)
  {
    if ops == [] { return; }
    var front, last := ops[..|ops| - 1], ops[|ops| - 1];
    if m in ImagesOf(base, front) {
      ApplyFirstImage(base, front, op, m);
    } else {
      var m0 :| m0 in ImagesOf(base, front) && m == Apply(m0, last);
      ApplyFirstImage(base, front, op, m0);
      Commute(m0, op, last);
    }
  }

  lemma RestoredUnderPrepared(txn: Txn, outside: set<Path>, d: Disk, e: Entry, op: Op, m: Namespace)
    requires ValidRoles(txn) && e in txn.entries && Keeps(d, In(Marking, txn, outside))
    requires op == Move(e.beforePath, e.destination, e.before) && txn.journal !in outside
    requires m in Images(Append(d, op)) && Get(m, txn.journal) == Some(BytesOf(txn, Prepared))
    ensures WriteAhead(txn, outside, m)
  {
    AppendOne(d, op);
    var m0 :| m0 in Images(d) && (m == m0 || m == Apply(m0, op));
    assert PhaseAt(Marking, txn, outside, m0, Visible(d));
    forall f | f in txn.entries
      ensures BeforeAt(f, outside, m) || (AfterAt(f, outside, m) && BeforeHeld(f, outside, m))
    {
      assert EntryAt(Marking, txn.journal, f, outside, m0, Visible(d));
      EntriesApart(txn, e, f);
      EntriesApart(txn, f, e);
    }
  }

  lemma DurableRestoreTears(txn: Txn, outside: set<Path>, d: Disk, e: Entry, op: Op, n: Namespace)
    requires ValidRoles(txn) && e in txn.entries && e.before != e.after
    requires op == Move(e.beforePath, e.destination, e.before) && e.destination.dir != txn.journal.dir
    requires txn.journal !in outside && e.destination !in outside
    requires n in Images(d) && Get(n, txn.journal) == Some(BytesOf(txn, Committed))
    ensures !AlwaysWriteAhead(txn, outside, Flush(Append(d, op), e.destination.dir))
  {
    AppendOne(d, op);
    var torn := FlushLeavesOthers(Append(d, op), e.destination.dir, n);
    AgreesAt(torn, n, Apply(Visible(d), op), e.destination.dir, txn.journal);
    AgreesAt(torn, n, Apply(Visible(d), op), e.destination.dir, e.destination);
    ApplyAt(Visible(d), op, e.destination);
    assert !AfterAt(e, outside, torn);
    assert !WriteAhead(txn, outside, torn);
  }

  /** Once that rename is flushed, exactly: the marker was decided, or the flush decides it. */
  lemma DurableRestoreSafeExactly(txn: Txn, outside: set<Path>, d: Disk, e: Entry)
    requires ValidRoles(txn) && e in txn.entries && e.before != e.after
    requires txn.journal !in outside && e.destination !in outside
    requires Keeps(d, In(Marking, txn, outside))
    requires Get(Visible(d), txn.journal) == Some(BytesOf(txn, Prepared))
    requires Get(Visible(d), e.beforePath) == Some(e.before)
    ensures e.beforePath.dir == e.destination.dir
    ensures AlwaysWriteAhead(txn, outside, Flush(Append(d, Move(e.beforePath, e.destination, e.before)),
                                                 e.destination.dir))
      <==> !Undecided(d, txn) || e.destination.dir == txn.journal.dir
  {
    EntriesApart(txn, e, e);
    UndecidedExactly(d, txn);
    RollbackSafeExactlyWhenDecided(txn, outside, d, e);
    var op: Op := Move(e.beforePath, e.destination, e.before);
    var moved := Append(d, op);
    AppendOne(d, op);
    FlushNarrows(moved, e.destination.dir);
    if MarkerDecided(d, txn) {
      assert AlwaysWriteAhead(txn, outside, moved);
    } else if e.destination.dir == txn.journal.dir {
      FlushSettles(moved, txn.journal.dir, txn.journal);
      forall m | m in Images(Flush(moved, e.destination.dir)) ensures WriteAhead(txn, outside, m) {
        RestoredUnderPrepared(txn, outside, d, e, op, m);
      }
    } else {
      var n :| n in Images(d) && Get(n, txn.journal) == Some(BytesOf(txn, Committed));
      DurableRestoreTears(txn, outside, d, e, op, n);
    }
  }

  /** The failing family: while the marker is undecided, durably restoring one destination in
      another directory leaves a crash that keeps the committed marker with one destination
      at its before image and another at its after image. */
  lemma UndecidedRollbackTears(txn: Txn, outside: set<Path>, d: Disk, e: Entry, f: Entry)
    returns (torn: Namespace)
    requires ValidRoles(txn) && e in txn.entries && f in txn.entries && e != f
    requires txn.journal !in outside && e.destination !in outside && f.destination !in outside
    requires Keeps(d, In(Marking, txn, outside)) && !MarkerDecided(d, txn)
    requires e.destination.dir != txn.journal.dir
    ensures e.beforePath.dir == e.destination.dir
    ensures torn in Images(Flush(Append(d, Move(e.beforePath, e.destination, e.before)), e.destination.dir))
    ensures Get(torn, txn.journal) == Some(BytesOf(txn, Committed))
    ensures Get(torn, e.destination) == Some(e.before) && Get(torn, f.destination) == Some(f.after)
  {
    EntriesApart(txn, e, e);
    var op: Op := Move(e.beforePath, e.destination, e.before);
    var n :| n in Images(d) && Get(n, txn.journal) == Some(BytesOf(txn, Committed));
    AppendOne(d, op);
    VisibleIsAnImage(d.durable, d.pending);
    AppliedWhileMarking(txn, outside, d, f, n);
    AppliedWhileMarking(txn, outside, d, f, Visible(d));
    torn := FlushLeavesOthers(Append(d, op), e.destination.dir, n);
    TornSides(txn, torn, n, Visible(d), op, e, f);
  }

  lemma TornSides(txn: Txn, torn: Namespace, n: Namespace, v: Namespace, op: Op, e: Entry, f: Entry)
    requires ValidRoles(txn) && e in txn.entries && f in txn.entries && e != f
    requires op == Move(e.beforePath, e.destination, e.before)
    requires Agrees(torn, n, Apply(v, op), e.destination.dir) && e.destination.dir != txn.journal.dir
    ensures Get(torn, txn.journal) == Get(n, txn.journal) && Get(torn, e.destination) == Some(e.before)
    ensures Get(torn, f.destination) in {Get(v, f.destination), Get(n, f.destination)}
  {
    EntriesApart(txn, e, f);
    EntriesApart(txn, f, e);
    AgreesAt(torn, n, Apply(v, op), e.destination.dir, txn.journal);
    AgreesAt(torn, n, Apply(v, op), e.destination.dir, e.destination);
    AgreesAt(torn, n, Apply(v, op), e.destination.dir, f.destination);
    ApplyAt(v, op, e.destination);
    ApplyAt(v, op, f.destination);
  }

  lemma AppliedWhileMarking(txn: Txn, outside: set<Path>, d: Disk, f: Entry, m: Namespace)
    requires Keeps(d, In(Marking, txn, outside)) && m in Images(d) && f in txn.entries
    requires txn.journal !in outside && f.destination !in outside
    ensures Get(m, f.destination) == Some(f.after)
  {
    assert PhaseAt(Marking, txn, outside, m, Visible(d));
    assert EntryAt(Marking, txn.journal, f, outside, m, Visible(d));
  }

  lemma AgreesAt(n': Namespace, n: Namespace, v: Namespace, dir: string, p: Path)
    requires Agrees(n', n, v, dir)
    ensures Get(n', p) == if p.dir == dir then Get(v, p) else Get(n, p)
  {
  }

  /** A replacement whose one fault is at the flush after its rename; two of them, with the read
      of the journal between them. */
  const UNFLUSHED_RENAME: seq<Fault> := [Pass, Pass, Pass, Pass, Pass, Fail, Pass]
  const MARKER_AND_RESET_UNFLUSHED: seq<Fault> := UNFLUSHED_RENAME + ([Pass] + UNFLUSHED_RENAME)

  lemma {:induction false} LaterIsSlice(faults: seq<Fault>, n: nat)
    requires n <= |faults|
    ensures Later(faults, n) == faults[n..]
    decreases n
  {
    if n > 0 {
      LaterIsSlice(Rest(faults), n - 1);
    }
  }

  lemma {:induction false} FineWhenPassing(faults: seq<Fault>, n: nat)
    requires n <= |faults| && forall k :: 0 <= k < n ==> faults[k].Pass?
    ensures Fine(faults, n)
    decreases n
  {
    if n > 0 {
      FineWhenPassing(Rest(faults), n - 1);
    }
  }

  lemma FlushFailsAt(faults: seq<Fault>, rest: seq<Fault>)
    requires faults == UNFLUSHED_RENAME + rest
    ensures LastFlushFails(faults) && Later(faults, 7) == rest
  {
    FineWhenPassing(faults, 5);
    LaterIsSlice(faults, 5);
    LaterIsSlice(faults, 6);
    LaterIsSlice(faults, 7);
  }

  lemma BothFlushesFail()
    ensures var f := MARKER_AND_RESET_UNFLUSHED;
      LastFlushFails(f) && Head(Later(f, 7)).Pass? && LastFlushFails(Rest(Later(f, 7)))
  {
    FlushFailsAt(MARKER_AND_RESET_UNFLUSHED, [Pass] + UNFLUSHED_RENAME);
    assert Rest([Pass] + UNFLUSHED_RENAME) == UNFLUSHED_RENAME;
    FlushFailsAt(UNFLUSHED_RENAME, []);
  }

  /** Such a disk is reached: the marker's flush fails after its rename, the reset stages the
      prepared bytes (flushing the marker with them), renames them, and its flush fails too. */
  method FailedResetLeavesMarkerUndecided(fs: FileSystem, txn: Txn) returns (marked: Status, reset: Status)
    requires fs.Valid() && ValidRoles(txn) && txn.journal.name.JournalFile?
    requires Keeps(fs.disk, In(Marking, txn, fs.outside))
    requires Held(fs.disk, txn.journal, Some(BytesOf(txn, Prepared)), fs.outside)
    requires fs.faults == MARKER_AND_RESET_UNFLUSHED
    modifies fs`disk, fs`faults, fs`replaced
    ensures marked.Failed? && reset.Failed? && Keeps(fs.disk, In(Marking, txn, fs.outside))
    ensures Get(Visible(fs.disk), txn.journal) == Some(BytesOf(txn, Prepared))
    ensures !MarkerDecided(fs.disk, txn)
  {
    BothFlushesFail();
    marked := MarkCommitted(fs, txn);
    reset := ResetPreparedJournal(fs, txn);
    VisibleIsAnImage(fs.disk.durable, fs.disk.pending);
  }

  /** Some operation on the journal is not flushed yet: what a caller can check, and flush. */
  predicate Unflushed(d: Disk, journal: Path) {
    exists op :: op in d.pending && Touches(op, journal)
  }

  /** A flushed journal is a decided marker. */
  lemma FlushedIsDecided(txn: Txn, d: Disk)
    requires !Unflushed(d, txn.journal)
    ensures MarkerDecided(d, txn)
  {
    forall m | m in Images(d) ensures Get(m, txn.journal) == Get(d.durable, txn.journal) {
      UntouchedByAll(d.durable, d.pending, txn.journal, m);
    }
  }

  lemma StillUnflushed(txn: Txn, d: Disk)
    requires !MarkerDecided(d, txn)
    ensures Unflushed(d, txn.journal)
  {
    if !Unflushed(d, txn.journal) {
      FlushedIsDecided(txn, d);
    }
  }

  /** The remedy: syncing the journal's directory decides the marker. */
  lemma FlushDecides(txn: Txn, d: Disk)
    ensures !Unflushed(Flush(d, txn.journal.dir), txn.journal)
    ensures MarkerDecided(Flush(d, txn.journal.dir), txn)
  {
    var f := Flush(d, txn.journal.dir);
    forall op | op in f.pending ensures !Touches(op, txn.journal) {
      assert OneDirectory(op);
    }
    FlushedIsDecided(txn, f);
  }

  // ---- rewrites that change nothing ----------------------------------------------------

  /** Undisturbed, no rollback of the transaction is ever stuck, whatever interrupted it: by the
      contract of `RecoverTransactionLocked`, each then completes. */
  ghost predicate NeverStalls(txn: Txn, phase: Phase)
  {
    forall d: Disk :: Keeps(d, In(phase, txn, {})) && Get(Visible(d), txn.journal) == Some(BytesOf(txn, Prepared))
      ==> Ready(txn, Visible(d))
  }

  /** Every destination at its before image. */
  function Laid(entries: seq<Entry>): Namespace
  {
    if entries == [] then map[]
    else Laid(entries[..|entries| - 1])[entries[|entries| - 1].destination := entries[|entries| - 1].before]
  }

  lemma {:induction false} LaidAt(entries: seq<Entry>, p: Path)
    requires DistinctDestinations(entries)
    ensures forall k :: 0 <= k < |entries| && entries[k].destination == p ==>
      Get(Laid(entries), p) == Some(entries[k].before)
    ensures (forall k :: 0 <= k < |entries| ==> entries[k].destination != p) ==> p !in Laid(entries)
  {
    if entries != [] {
      LaidAt(entries[..|entries| - 1], p);
    }
  }

  /** What an interrupted rollback can leave: the prepared journal, every destination at its before
      image, and no stage. */
  function Consumed(txn: Txn): Disk
  {
    Disk(Laid(txn.entries)[txn.journal := BytesOf(txn, Prepared)], [])
  }

  lemma ConsumedAt(txn: Txn, e: Entry)
    requires ValidRoles(txn) && e in txn.entries
    ensures var m := Consumed(txn).durable;
      Get(m, e.destination) == Some(e.before) && e.beforePath !in m && e.afterPath !in m
  {
    EntriesApart(txn, e, e);
    forall f | f in txn.entries ensures f.destination !in {e.beforePath, e.afterPath} {
      EntriesApart(txn, f, e);
    }
    LaidAt(txn.entries, e.destination);
    LaidAt(txn.entries, e.beforePath);
    LaidAt(txn.entries, e.afterPath);
  }

  lemma ConsumedIsReverting(txn: Txn, phase: Phase)
    requires ValidRoles(txn) && Reverting(phase)
    ensures Keeps(Consumed(txn), In(phase, txn, {}))
  {
    var m := Consumed(txn).durable;
    forall e | e in txn.entries ensures EntryAt(phase, txn.journal, e, {}, m, m) {
      ConsumedAt(txn, e);
    }
    assert PhaseAt(phase, txn, {}, m, m);
  }

  /** A rewrite whose two images are equal stalls recovery: once its restore has consumed the
      before stage, the destination still counts as holding the after image, which nothing is
      left to restore, though the write-ahead invariant holds. */
  lemma EqualImagesStall(txn: Txn, e: Entry, phase: Phase)
    requires ValidRoles(txn) && e in txn.entries && e.before == e.after && Reverting(phase)
    ensures Keeps(Consumed(txn), In(phase, txn, {})) && Stuck(Visible(Consumed(txn)), e)
    ensures Get(Visible(Consumed(txn)), txn.journal) == Some(BytesOf(txn, Prepared))
    ensures !Ready(txn, Visible(Consumed(txn)))
  {
    ConsumedIsReverting(txn, phase);
    ConsumedAt(txn, e);
  }

  /** A transaction never stalls exactly if each of its rewrites changes its file. */
  lemma NeverStallsExactlyWhenImagesDiffer(txn: Txn, phase: Phase)
    requires ValidRoles(txn) && Reverting(phase)
    ensures NeverStalls(txn, phase) <==> forall e :: e in txn.entries ==> e.before != e.after
  {
    if e :| e in txn.entries && e.before == e.after {
      EqualImagesStall(txn, e, phase);
      assert Keeps(Consumed(txn), In(phase, txn, {}));
    } else {
      forall d: Disk | Keeps(d, In(phase, txn, {}))
        && Get(Visible(d), txn.journal) == Some(BytesOf(txn, Prepared)) ensures Ready(txn, Visible(d))
      {
        NeverStuck(phase, txn, d);
      }
    }
  }

  /** Once a destination is stuck no recovery completes, however many are run, whatever faults
      they meet or not, and wherever a process dies. */
  method NoRecoveryFinishes(fs: FileSystem, journal: Path, rewrites: seq<Rewrite>, ghost left: Left,
                            ghost e: Entry, attempts: nat)
    returns (results: seq<RecoveryResult>)
    requires fs.Valid() && journal.name.JournalFile? && Resumable(left) && fs.edits == []
    requires Stands(left, journal, rewrites, fs.outside, fs.disk)
    requires StuckUnder(Visible(fs.disk), journal, e)
    modifies fs`disk, fs`faults, fs`edits, fs`replaced
    ensures |results| == attempts && forall k :: 0 <= k < |results| ==> !Completed(results[k])
    ensures StuckUnder(Visible(fs.disk), journal, e)
  {
    results := [];
    ghost var now := left;
    for k := 0 to attempts
      invariant fs.Valid() && fs.edits == [] && Resumable(now)
      invariant Stands(now, journal, rewrites, fs.outside, fs.disk)
      invariant StuckUnder(Visible(fs.disk), journal, e)
      invariant |results| == k && forall l :: 0 <= l < k ==> !Completed(results[l])
    {
      ghost var v := Visible(fs.disk);
      var r;
      ghost var txn;
      r, now, txn := RecoverTransactionLocked(fs, journal, rewrites, now);
      StuckIsNotRecoverable(v, Visible(fs.disk), journal, e);
      results := results + [r];
    }
  }

  /** A destination gets stuck: restoring one with equal images consumes its stage, and a rollback
      that stops there is never finished. */
  method RestoreThenStall(fs: FileSystem, txn: Txn, rewrites: seq<Rewrite>, e: Entry, ghost phase: Phase,
                          attempts: nat)
    returns (s: Status, results: seq<RecoveryResult>)
    requires fs.Valid() && ValidRoles(txn) && txn.journal.name.JournalFile? && Reverting(phase) && fs.edits == []
    requires Stands(During(phase, txn), txn.journal, rewrites, fs.outside, fs.disk)
    requires e in txn.entries && e.before == e.after && Get(Visible(fs.disk), e.destination) == Some(e.after)
    requires Get(Visible(fs.disk), txn.journal) == Some(BytesOf(txn, Prepared))
    modifies fs`disk, fs`faults, fs`edits, fs`replaced
    ensures old(fs.Calm()) && old(Get(Visible(fs.disk), e.beforePath)) == Some(e.before) ==> s.Ok?
    ensures s.Ok? ==> StuckUnder(Visible(fs.disk), txn.journal, e)
    ensures s.Ok? ==> |results| == attempts && forall k :: 0 <= k < |results| ==> !Completed(results[k])
  {
    results := [];
    EntriesApart(txn, e, e);
    s := RestoreDestination(fs, txn, e, phase);
    if s.Ok? {
      assert Stands(During(phase, txn), txn.journal, rewrites, fs.outside, fs.disk);
      results := NoRecoveryFinishes(fs, txn.journal, rewrites, During(phase, txn), e, attempts);
    }
  }

  ghost predicate StuckUnder(v: Namespace, journal: Path, e: Entry)
  {
    match Get(v, journal)
    case Some(Journal(Prepared, entries)) => e in entries && Stuck(v, e)
    case _ => false
  }

  lemma StuckIsNotRecoverable(v: Namespace, w: Namespace, journal: Path, e: Entry)
    requires StuckUnder(v, journal, e)
    ensures !Recoverable(v, journal)
    ensures StuckForGood(v, w, journal) ==> StuckUnder(w, journal, e)
  {
    var txn := Txn(journal, v[journal].entries);
    assert e in txn.entries && Stuck(v, e);
    assert !Ready(txn, v);
  }

  // ---- publications a crash can lose ---------------------------------------------------

  /** A crash can leave a stage of the transaction without its journal: decided by looking through
      what is durable and what is pending, once for each path. */
  predicate CanOrphan(d: Disk, txn: Txn, outside: set<Path>) {
    && CanHold(d.durable, d.pending, txn.journal, None)
    && exists k :: 0 <= k < 2 * |txn.entries| && CanStay(d, StagedArtifacts(txn.entries)[k], outside)
  }

  predicate CanStay(d: Disk, a: Artifact, outside: set<Path>) {
    a.path !in outside && CanHold(d.durable, d.pending, a.path, Some(a.image))
  }

  /** No pending operation moves anything between the journal and a stage; none ever does. */
  predicate StagesApart(d: Disk, txn: Txn) {
    forall a :: a in StagedArtifacts(txn.entries) ==> Apart(d.pending, txn.journal, a.path)
  }

  /** Where a stage may stay without the journal, the journal does not go last. */
  lemma OrphanLeft(txn: Txn, outside: set<Path>, d: Disk, k: nat)
    requires ValidRoles(txn) && txn.journal !in outside && StagesApart(d, txn)
    requires CanHold(d.durable, d.pending, txn.journal, None)
    requires k < 2 * |txn.entries| && CanStay(d, StagedArtifacts(txn.entries)[k], outside)
    ensures !JournalLast(d, txn, Prepared, outside)
  {
    var a := StagedArtifacts(txn.entries)[k];
    assert a in StagedArtifacts(txn.entries);
    var m := CanHoldBoth(d.durable, d.pending, txn.journal, None, a.path, Some(a.image));
    StageLeft(txn, outside, m, k);
    assert m in Images(d);
  }

  lemma StageLeft(txn: Txn, outside: set<Path>, m: Namespace, k: nat)
    requires k < 2 * |txn.entries|
    requires var p := StagedArtifacts(txn.entries)[k].path; p in m && p !in outside
    ensures !AllDone(m, txn, Prepared, outside)
  {
    var e := txn.entries[k / 2];
    assert k == 2 * (k / 2) || k == 2 * (k / 2) + 1;
    assert e in txn.entries && !StagesGone(e, outside, m);
  }

  /** Where none may, every crash that loses the journal has lost the stages. */
  lemma NoOrphanLeft(txn: Txn, outside: set<Path>, d: Disk, m: Namespace)
    requires Keeps(d, In(Staging, txn, outside)) && txn.journal !in outside && !CanOrphan(d, txn, outside)
    requires m in Images(d) && txn.journal !in m
    ensures AllDone(m, txn, Prepared, outside)
  {
    var staged := StagedArtifacts(txn.entries);
    CanHoldExactly(d.durable, d.pending, txn.journal, None);
    assert Get(m, txn.journal) == None;
    assert PhaseAt(Staging, txn, outside, m, Visible(d));
    forall e | e in txn.entries ensures StagesGone(e, outside, m) && OnSide(e, Prepared, outside, m) {
      assert EntryAt(Staging, txn.journal, e, outside, m, Visible(d));
      var i :| 0 <= i < |txn.entries| && txn.entries[i] == e;
      assert !CanStay(d, staged[2 * i], outside) && !CanStay(d, staged[2 * i + 1], outside);
      CanHoldExactly(d.durable, d.pending, e.beforePath, Some(e.before));
      CanHoldExactly(d.durable, d.pending, e.afterPath, Some(e.after));
    }
  }

  /** A recovery may claim that the journal goes last exactly if no crash can leave a stage without
      it, which a caller can check before starting one. */
  lemma PublishedExactlyWhenNoneOrphaned(txn: Txn, outside: set<Path>, d: Disk)
    requires Keeps(d, In(Staging, txn, outside)) && ValidRoles(txn)
    requires txn.journal !in outside && StagesApart(d, txn)
    ensures JournalLast(d, txn, Prepared, outside) <==> !CanOrphan(d, txn, outside)
    ensures Keeps(d, In(Rolling, txn, outside)) <==> !CanOrphan(d, txn, outside)
  {
    if CanOrphan(d, txn, outside) {
      var k :| 0 <= k < 2 * |txn.entries| && CanStay(d, StagedArtifacts(txn.entries)[k], outside);
      OrphanLeft(txn, outside, d, k);
    } else {
      forall m | m in Images(d) && txn.journal !in m ensures AllDone(m, txn, Prepared, outside) {
        NoOrphanLeft(txn, outside, d, m);
      }
      Weaken(Staging, Rolling, txn, outside, d);
    }
    if Keeps(d, In(Rolling, txn, outside)) {
      PhasesKeepJournalLast(Rolling, txn, outside, d);
    }
  }

  /** While a before stage is durably there, that is exactly if no crash can lose the journal. */
  lemma PublishedExactlyWhenJournalStays(txn: Txn, outside: set<Path>, d: Disk, e: Entry)
    requires e in txn.entries && txn.journal !in outside && e.beforePath !in outside
    requires Held(d, e.beforePath, Some(e.before), {})
    ensures JournalLast(d, txn, Prepared, outside) <==> !CanHold(d.durable, d.pending, txn.journal, None)
  {
    CanHoldExactly(d.durable, d.pending, txn.journal, None);
    if m :| m in Images(d) && Get(m, txn.journal) == None {
      assert e.beforePath in m && !StagesGone(e, outside, m);
    }
  }

  /** A flushed journal cannot be lost: a caller can check that, and flush. */
  lemma FlushedIsPublished(txn: Txn, outside: set<Path>, d: Disk)
    requires !Unflushed(d, txn.journal) && txn.journal in Visible(d)
    ensures JournalLast(d, txn, Prepared, outside)
  {
    VisibleIsAnImage(d.durable, d.pending);
    UntouchedByAll(d.durable, d.pending, txn.journal, Visible(d));
    forall m | m in Images(d) ensures txn.journal in m {
      UntouchedByAll(d.durable, d.pending, txn.journal, m);
    }
  }

  /** The run that gets there: publishing dies between the link and its flush. */
  const LINK_UNFLUSHED: seq<Fault> := [Pass, Pass, Pass, Pass, Pass, CrashBefore]

  lemma LinkDies()
    ensures DiesBeforeFlush(LINK_UNFLUSHED)
  {
    FineWhenPassing(LINK_UNFLUSHED, 5);
    LaterIsSlice(LINK_UNFLUSHED, 5);
  }

  /** The journal is there, so a recovery starts on it, and a crash can still lose it alone. */
  method UnflushedPublicationIsLosable(fs: FileSystem, txn: Txn, rewrites: seq<Rewrite>, ghost e: Entry)
    returns (s: Status)
    requires fs.Valid() && txn.journal.name.JournalFile? && ProperRewrites(txn.journal, rewrites)
    requires |txn.entries| == |rewrites| && e in txn.entries && fs.faults == LINK_UNFLUSHED
    requires txn.journal !in fs.outside && e.beforePath !in fs.outside
    requires Keeps(fs.disk, Idle(txn.journal, rewrites, fs.outside))
    requires StagedUpTo(fs.disk, txn.entries, txn.journal, rewrites, fs.outside)
    modifies fs`disk, fs`faults, fs`edits, fs`replaced
    ensures s.Crashed? && Keeps(fs.disk, In(Staging, txn, fs.outside))
    ensures Get(Visible(fs.disk), txn.journal) == Some(BytesOf(txn, Prepared))
    ensures CanHold(fs.disk.durable, fs.disk.pending, txn.journal, None)
    ensures Held(fs.disk, e.beforePath, Some(e.before), {})
    ensures !JournalLast(fs.disk, txn, Prepared, fs.outside)
  {
    LinkDies();
    KeepsVisible(fs.disk, Idle(txn.journal, rewrites, fs.outside));
    assert IdleAt(txn.journal, rewrites, fs.outside, Visible(fs.disk));
    s := PublishJournal(fs, txn, rewrites);
    CanHoldExactly(fs.disk.durable, fs.disk.pending, txn.journal, None);
    PublishedExactlyWhenJournalStays(txn, fs.outside, fs.disk, e);
  }

  /** From there, durably removing a stage in another directory leaves a crash with no journal, that
      stage gone and another one still there. */
  lemma UnpublishedRecoveryOrphans(txn: Txn, d: Disk, e: Entry, f: Entry) returns (torn: Namespace)
    requires ValidRoles(txn) && e in txn.entries && f in txn.entries
    requires CanHold(d.durable, d.pending, txn.journal, None) && Held(d, f.beforePath, Some(f.before), {})
    requires e.beforePath.dir !in {txn.journal.dir, f.beforePath.dir}
    ensures torn in Images(Flush(Append(d, Drop(e.beforePath)), e.beforePath.dir))
    ensures txn.journal !in torn && e.beforePath !in torn && f.beforePath in torn
  {
    var op: Op := Drop(e.beforePath);
    CanHoldExactly(d.durable, d.pending, txn.journal, None);
    var n :| n in Images(d) && Get(n, txn.journal) == None;
    AppendOne(d, op);
    torn := FlushLeavesOthers(Append(d, op), e.beforePath.dir, n);
    ReadAcross(torn, n, Visible(d), e.beforePath, txn.journal);
    ReadAcross(torn, n, Visible(d), e.beforePath, f.beforePath);
  }

  /** A recovery that finds the journal visible may durably remove a first stage, another being
      durably there, and keep the journal last exactly if no crash can lose the journal or the flush
      of that removal covers it. */
  lemma StageDropSafeExactlyWhenPublished(txn: Txn, outside: set<Path>, d: Disk, e: Entry, f: Entry)
    requires ValidRoles(txn) && e in txn.entries && f in txn.entries
    requires txn.journal !in outside && f.beforePath !in outside && txn.journal in Visible(d)
    requires Held(d, f.beforePath, Some(f.before), {}) && e.beforePath.dir != f.beforePath.dir
    ensures JournalLast(Flush(Append(d, Drop(e.beforePath)), e.beforePath.dir), txn, Prepared, outside)
      <==> !CanHold(d.durable, d.pending, txn.journal, None) || e.beforePath.dir == txn.journal.dir
  {
    EntriesApart(txn, e, e);
    if e.beforePath.dir == txn.journal.dir {
      AppendOne(d, Drop(e.beforePath));
      FlushedStays(txn, outside, Append(d, Drop(e.beforePath)));
    } else if !CanHold(d.durable, d.pending, txn.journal, None) {
      DropLeavesJournal(txn, outside, d, e.beforePath);
    } else {
      var torn := UnpublishedRecoveryOrphans(txn, d, e, f);
      OrphanedBy(txn, outside, Flush(Append(d, Drop(e.beforePath)), e.beforePath.dir), torn, f);
    }
  }

  lemma OrphanedBy(txn: Txn, outside: set<Path>, d: Disk, torn: Namespace, f: Entry)
    requires torn in Images(d) && txn.journal !in torn && txn.journal !in outside
    requires f in txn.entries && f.beforePath in torn && f.beforePath !in outside
    ensures !JournalLast(d, txn, Prepared, outside)
  {
    assert !StagesGone(f, outside, torn);
  }

  /** A journal that no crash can lose is not lost by removing something else. */
  lemma DropLeavesJournal(txn: Txn, outside: set<Path>, d: Disk, p: Path)
    requires !CanHold(d.durable, d.pending, txn.journal, None) && p != txn.journal
    ensures JournalLast(Flush(Append(d, Drop(p)), p.dir), txn, Prepared, outside)
  {
    CanHoldExactly(d.durable, d.pending, txn.journal, None);
    AppendOne(d, Drop(p));
    forall m | m in Images(Append(d, Drop(p))) ensures txn.journal in m {
      if m !in Images(d) {
        var m0 :| m0 in Images(d) && m == Apply(m0, Drop(p));
        assert Get(m0, txn.journal) != None;
      } else {
        assert Get(m, txn.journal) != None;
      }
    }
    FlushNarrows(Append(d, Drop(p)), p.dir);
  }

  /** After a flush of its directory a visible journal is there to stay. */
  lemma FlushedStays(txn: Txn, outside: set<Path>, d: Disk)
    requires txn.journal in Visible(d)
    ensures JournalLast(Flush(d, txn.journal.dir), txn, Prepared, outside)
  {
    FlushNarrows(d, txn.journal.dir);
    FlushSettles(d, txn.journal.dir, txn.journal);
  }

  lemma ReadAcross(torn: Namespace, n: Namespace, v: Namespace, gone: Path, p: Path)
    requires Agrees(torn, n, Apply(v, Drop(gone)), gone.dir) && p.dir != gone.dir
    ensures gone !in torn && Get(torn, p) == Get(n, p)
  {
    assert Get(torn, gone) == Get(Apply(v, Drop(gone)), gone);
  }

  // ---- whole runs ----------------------------------------------------------------------

  /** After a power loss recovery continues from whatever image was left. */
  lemma AfterPowerLoss(left: Left, journal: Path, rewrites: seq<Rewrite>, outside: set<Path>,
                       d: Disk, m: Namespace)
    returns (left': Left)
    requires Stands(left, journal, rewrites, outside, d) && m in Images(d) && !left.Refused?
    ensures Stands(left', journal, rewrites, outside, Disk(m, [])) && Resumable(left')
    ensures left.NoJournal? <==> left'.NoJournal?
    ensures left.During? ==> left'.txn == left.txn && (left.phase != Marking ==> left' == left)
  {
    var crashed := Disk(m, []);
    assert Images(crashed) == {m} && Visible(crashed) == m;
    if left.NoJournal? {
      left' := left;
      assert IdleAt(journal, rewrites, outside, m);
      return;
    }
    var txn, v := left.txn, Visible(d);
    assert PhaseAt(left.phase, txn, outside, m, v);
    var next := if left.phase != Marking then left.phase
                else if Get(m, journal) == Some(BytesOf(txn, Prepared)) then Applying else Clearing;
    if journal !in outside {
      forall e | e in txn.entries ensures EntryAt(next, journal, e, outside, m, m) {
        assert EntryAt(left.phase, journal, e, outside, m, v);
      }
    }
    left' := During(next, txn);
  }

  /** Every rename over a destination replaced one of that rewrite's own two images. */
  ghost predicate OwnImagesOnly(log: seq<Replacement>, since: nat, rewrites: seq<Rewrite>)
  {
    forall k, r :: since <= k < |log| && r in rewrites && log[k].path == r.destination ==>
      Get(Visible(log[k].disk), r.destination) in {Some(r.before), Some(r.after)}
  }

  lemma OwnImagesGrow(a: seq<Replacement>, b: seq<Replacement>, since: nat, txn: Txn,
                      rewrites: seq<Rewrite>, outside: set<Path>)
    requires since <= |a| && OwnImagesOnly(a, since, rewrites) && Grown(a, b, txn, outside)
    requires Corresponds(txn.entries, rewrites) || a == b
    ensures OwnImagesOnly(b, since, rewrites)
  {
    forall k, r | since <= k < |b| && r in rewrites && b[k].path == r.destination
      ensures Get(Visible(b[k].disk), r.destination) in {Some(r.before), Some(r.after)}
    {
      if k < |a| {
        assert b[k] == a[k];
      } else {
        var i :| 0 <= i < |rewrites| && rewrites[i] == r;
        assert txn.entries[i] in txn.entries && Guarded(b[k], txn, outside);
      }
    }
  }

  /** A completed recovery settles every rewrite on the side its result names. */
  lemma SettledSide(r: RecoveryResult, left: Left, left': Left, txn: Txn, journal: Path,
                    rewrites: seq<Rewrite>, outside: set<Path>, d: Disk)
    requires Completed(r) && Settles(r, txn, outside, d) && journal !in outside && Resumable(left')
    requires Stands(left', journal, rewrites, outside, d)
    requires r.NothingToRecover? ==> journal !in Visible(d)
    requires !r.NothingToRecover? ==> left'.During? && left'.txn == txn
    ensures r.RolledBackAll? || r.RolledBackPartly? ==> AllAtBefore(rewrites, outside, Visible(d))
    ensures r.CleanedCommitted? ==> AllAtAfter(rewrites, outside, Visible(d))
    ensures r.NothingToRecover? ==>
      if left'.During? && left'.phase.Clearing? then AllAtAfter(rewrites, outside, Visible(d))
      else AllAtBefore(rewrites, outside, Visible(d))
  {
    if r.NothingToRecover? {
      VisibleJournal(left', journal, rewrites, outside, d);
    }
    if left'.During? {
      forall i | 0 <= i < |rewrites| ensures left'.txn.entries[i] in left'.txn.entries {
      }
    } else {
      KeepsVisible(d, Idle(journal, rewrites, outside));
      assert IdleAt(journal, rewrites, outside, Visible(d));
    }
  }

  /** What happens between two attempts: the power fails, keeping the operations `keep` picks,
      or only the process ended. */
  datatype Interruption = PowerFailed(keep: nat -> bool) | ProcessEnded

  lemma FinishedSpared(a: Disk, b: Disk, txn: Txn, state: JournalState, outside: set<Path>)
    requires Finished(a, txn, state, outside) && Spares(a, b, outside)
    ensures Finished(b, txn, state, outside)
  {
    forall e | e in txn.entries && txn.journal !in outside ensures Done(b, e, state, outside) {
      assert Done(a, e, state, outside);
    }
  }

  lemma FinishedAfterLoss(d: Disk, m: Namespace, txn: Txn, state: JournalState, outside: set<Path>)
    requires Finished(d, txn, state, outside) && m in Images(d)
    ensures Finished(Disk(m, []), txn, state, outside)
  {
    assert Images(Disk(m, [])) == {m} && Visible(Disk(m, [])) == m;
    forall e | e in txn.entries && txn.journal !in outside ensures Done(Disk(m, []), e, state, outside) {
      assert Done(d, e, state, outside);
    }
  }

  /** Other processes run between two attempts. */
  method OthersRun(fs: FileSystem, journal: Path, rewrites: seq<Rewrite>, ghost left: Left)
    requires fs.Valid() && Stands(left, journal, rewrites, fs.outside, fs.disk) && !left.Refused?
    modifies fs`disk, fs`edits
    ensures fs.Valid() && Stands(left, journal, rewrites, fs.outside, fs.disk)
    ensures Spares(old(fs.disk), fs.disk, fs.outside)
  {
    ghost var claim := if left.During? then In(left.phase, left.txn, fs.outside)
                       else Idle(journal, rewrites, fs.outside);
    forall p | p in fs.outside ensures Ignores(claim, p) {
      if left.During? {
        PhaseIgnores(left.phase, left.txn, fs.outside, p);
      } else {
        IdleIgnores(journal, rewrites, fs.outside, p);
      }
    }
    fs.Environment(claim);
  }

  /** Between two attempts other processes run, the power may fail, and others run again. */
  method Interrupt(fs: FileSystem, journal: Path, rewrites: seq<Rewrite>, interruption: Interruption,
                   ghost left: Left)
    returns (ghost left': Left)
    requires fs.Valid() && Stands(left, journal, rewrites, fs.outside, fs.disk) && !left.Refused?
    modifies fs`disk, fs`edits
    ensures fs.Valid() && Stands(left', journal, rewrites, fs.outside, fs.disk) && !left'.Refused?
    ensures left.NoJournal? || left != During(Marking, left.txn) || interruption.ProcessEnded? ==> left' == left
    ensures left.During? ==> left'.During? && left'.txn == left.txn
    ensures interruption.PowerFailed? || Resumable(left) ==> Resumable(left')
    ensures left.During? ==> forall state :: old(Finished(fs.disk, left.txn, state, fs.outside)) ==>
      Finished(fs.disk, left.txn, state, fs.outside)
  {
    left' := left;
    ghost var start := fs.disk;
    OthersRun(fs, journal, rewrites, left);
    if left.During? {
      forall state | Finished(start, left.txn, state, fs.outside)
        ensures Finished(fs.disk, left.txn, state, fs.outside)
      {
        FinishedSpared(start, fs.disk, left.txn, state, fs.outside);
      }
    }
    if interruption.PowerFailed? {
      ghost var d := fs.disk;
      fs.PowerLoss(interruption.keep);
      left' := AfterPowerLoss(left, journal, rewrites, fs.outside, d, fs.disk.durable);
      assert fs.disk == Disk(fs.disk.durable, []);
      ghost var lost := fs.disk;
      OthersRun(fs, journal, rewrites, left');
      if left.During? {
        forall state | Finished(d, left.txn, state, fs.outside)
          ensures Finished(fs.disk, left.txn, state, fs.outside)
        {
          FinishedAfterLoss(d, lost.durable, left.txn, state, fs.outside);
          FinishedSpared(lost, fs.disk, left.txn, state, fs.outside);
        }
      }
    }
  }

  /** What a commit that finished reported stays true: nothing of the transaction comes back. */
  ghost predicate Reported(c: CommitResult, left: Left, outside: set<Path>, d: Disk)
  {
    && (c.Reconciled? ==> left.During? && left.phase.Clearing? && Finished(d, left.txn, Committed, outside))
    && (RolledBack(c) ==> left.During? && left.phase.Rolling? && Finished(d, left.txn, Prepared, outside))
  }

  lemma ReportedSides(c: CommitResult, left: Left, journal: Path, rewrites: seq<Rewrite>,
                      outside: set<Path>, d: Disk)
    requires Reported(c, left, outside, d) && Stands(left, journal, rewrites, outside, d)
    requires journal !in outside
    ensures c.Reconciled? ==> forall m :: m in Images(d) ==> AllAtAfter(rewrites, outside, m)
    ensures RolledBack(c) ==> forall m :: m in Images(d) ==> AllAtBefore(rewrites, outside, m)
  {
    if c.Reconciled? || RolledBack(c) {
      var state := if c.Reconciled? then Committed else Prepared;
      forall m, w | m in Images(d) && w in rewrites && w.destination !in outside
        ensures Get(m, w.destination) == Some(if c.Reconciled? then w.after else w.before)
      {
        var i :| 0 <= i < |rewrites| && rewrites[i] == w;
        assert left.txn.entries[i] in left.txn.entries && Done(d, left.txn.entries[i], state, outside);
      }
    }
  }

  /** The side on which a completed recovery leaves every rewrite. */
  ghost predicate Ends(r: RecoveryResult, left: Left, rewrites: seq<Rewrite>, outside: set<Path>, v: Namespace)
  {
    && (r.RolledBackAll? || r.RolledBackPartly? ==> AllAtBefore(rewrites, outside, v))
    && (r.CleanedCommitted? ==> AllAtAfter(rewrites, outside, v))
    && (r.NothingToRecover? ==> if left.During? && left.phase.Clearing? then AllAtAfter(rewrites, outside, v)
                                else AllAtBefore(rewrites, outside, v))
    && (r.RolledBackPartly? ==> exists w :: w in rewrites && w.destination in outside)
  }

  /** One recovery of a run. */
  method RecoverOnce(fs: FileSystem, journal: Path, rewrites: seq<Rewrite>, ghost left: Left,
                     ghost c: CommitResult, ghost since: nat)
    returns (r: RecoveryResult, ghost left': Left)
    requires fs.Valid() && journal.name.JournalFile? && journal !in fs.outside && Resumable(left)
    requires Stands(left, journal, rewrites, fs.outside, fs.disk) && Reported(c, left, fs.outside, fs.disk)
    requires since <= |fs.replaced| && OwnImagesOnly(fs.replaced, since, rewrites)
    modifies fs`disk, fs`faults, fs`edits, fs`replaced
    ensures fs.Valid() && Stands(left', journal, rewrites, fs.outside, fs.disk) && Resumable(left')
    ensures Reported(c, left', fs.outside, fs.disk) && Ends(r, left', rewrites, fs.outside, Visible(fs.disk))
    ensures Completed(r) && (c.Reconciled? || RolledBack(c)) ==> r.NothingToRecover?
    ensures since <= |fs.replaced| && OwnImagesOnly(fs.replaced, since, rewrites)
  {
    ghost var log := fs.replaced;
    ghost var txn;
    r, left', txn := RecoverTransactionLocked(fs, journal, rewrites, left);
    OwnImagesGrow(log, fs.replaced, since, txn, rewrites, fs.outside);
    if Completed(r) {
      SettledSide(r, left, left', txn, journal, rewrites, fs.outside, fs.disk);
      if r.RolledBackPartly? {
        PartlyMeansOutside(txn, rewrites, fs.outside);
      }
    }
  }

  /** A commit, then one recovery after each interruption until one completes. The run is
      `undecided`, and stops, exactly when a commit gave up around its marker and a recovery would
      start, without a power loss between, while a crash can leave either marker. */
  method CommitThenRecover(fs: FileSystem, journal: Path, rewrites: seq<Rewrite>,
                           interruptions: seq<Interruption>)
    returns (c: CommitResult, r: RecoveryResult, undecided: bool, ghost left: Left)
    requires fs.Valid() && journal.name.JournalFile? && journal !in fs.outside
    requires Keeps(fs.disk, Idle(journal, rewrites, fs.outside))
    modifies fs`disk, fs`faults, fs`edits, fs`replaced
    // every disk the run stops on satisfies the durable write-ahead invariant, and there a crash
    // that loses a published journal has lost every stage before it
    ensures Stands(left, journal, rewrites, fs.outside, fs.disk)
    ensures left.During? ==> AlwaysWriteAhead(left.txn, fs.outside, fs.disk)
    ensures LastOrNothing(left, fs.outside, fs.disk)
    // all or nothing, on the side the last recovery names
    ensures Completed(r) ==> !undecided
    ensures r.RolledBackAll? || r.RolledBackPartly? ==> AllAtBefore(rewrites, fs.outside, Visible(fs.disk))
    ensures r.CleanedCommitted? ==> AllAtAfter(rewrites, fs.outside, Visible(fs.disk))
    ensures r.NothingToRecover? ==>
      if left.During? && left.phase.Clearing? then AllAtAfter(rewrites, fs.outside, Visible(fs.disk))
      else AllAtBefore(rewrites, fs.outside, Visible(fs.disk))
    ensures r.RolledBackPartly? ==> exists w :: w in rewrites && w.destination in fs.outside
    // and on the side the commit reported, if it did, in every crash image, whatever followed
    ensures c.Reconciled? ==> forall m :: m in Images(fs.disk) ==> AllAtAfter(rewrites, fs.outside, m)
    ensures RolledBack(c) ==> forall m :: m in Images(fs.disk) ==> AllAtBefore(rewrites, fs.outside, m)
    ensures Completed(r) && (c.Reconciled? || RolledBack(c)) ==> r.NothingToRecover?
    // content that is neither image is never replaced, whatever other processes did
    ensures OwnImagesOnly(fs.replaced, |old(fs.replaced)|, rewrites)
    // the marker can be undecided only when a failed commit is resumed without a power loss
    ensures undecided ==> left.During? && left.phase.Marking? && Unflushed(fs.disk, journal)
    ensures undecided ==> !MarkerDecided(fs.disk, left.txn)
    ensures undecided ==> |interruptions| > 0 && interruptions[0].ProcessEnded?
  {
    ghost var since := |fs.replaced|;
    ghost var txn;
    var attempt;
    KeepsVisible(fs.disk, Idle(journal, rewrites, fs.outside));
    assert IdleAt(journal, rewrites, fs.outside, Visible(fs.disk));
    c, attempt, txn := CommitRewritesLocked(fs, journal, rewrites);
    left := attempt;
    OwnImagesGrow(old(fs.replaced), fs.replaced, since, txn, rewrites, fs.outside);
    r, undecided := RecoveryCrashed, false;
    for k := 0 to |interruptions|
      invariant fs.Valid() && Stands(left, journal, rewrites, fs.outside, fs.disk)
      invariant if k == 0 then left == attempt && !left.Refused? else Resumable(left)
      invariant !Completed(r) && !undecided && since <= |fs.replaced|
      invariant OwnImagesOnly(fs.replaced, since, rewrites) && Reported(c, left, fs.outside, fs.disk)
    {
      left := Interrupt(fs, journal, rewrites, interruptions[k], left);
      if k == 0 && interruptions[k].ProcessEnded? && attempt.During? && attempt.phase.Marking? {
        UndecidedExactly(fs.disk, left.txn);
        if Undecided(fs.disk, attempt.txn) {
          undecided := true;
          StillUnflushed(left.txn, fs.disk);
          break;
        }
        left := Decide(left, journal, rewrites, fs.outside, fs.disk);
      }
      r, left := RecoverOnce(fs, journal, rewrites, left, c, since);
      if Completed(r) { break; }
    }
    StandsLast(left, journal, rewrites, fs.outside, fs.disk);
    if left.During? {
      PhasesWriteAhead(left.phase, left.txn, fs.outside, fs.disk);
    }
    ReportedSides(c, left, journal, rewrites, fs.outside, fs.disk);
  }

  lemma PartlyMeansOutside(txn: Txn, rewrites: seq<Rewrite>, outside: set<Path>)
    requires Corresponds(txn.entries, rewrites)
    requires exists e :: e in txn.entries && e.destination in outside
    ensures exists w :: w in rewrites && w.destination in outside
  {
    var e :| e in txn.entries && e.destination in outside;
    var i :| 0 <= i < |txn.entries| && txn.entries[i] == e;
    assert rewrites[i] in rewrites;
  }

  /** A decided marker makes the phase one recovery can continue from. */
  lemma Decide(left: Left, journal: Path, rewrites: seq<Rewrite>, outside: set<Path>, d: Disk)
    returns (left': Left)
    requires Stands(left, journal, rewrites, outside, d) && journal !in outside
    requires left.During? && left.phase.Marking? && MarkerDecided(d, left.txn)
    ensures Stands(left', journal, rewrites, outside, d) && Resumable(left')
    ensures left'.During? && left'.txn == left.txn
  {
    MarkerDecides(left.txn, outside, d);
    KeepsVisible(d, In(Marking, left.txn, outside));
    assert PhaseAt(Marking, left.txn, outside, Visible(d), Visible(d));
    left' := During(if Get(Visible(d), journal) == Some(BytesOf(left.txn, Prepared))
                    then Applying else Clearing, left.txn);
  }

  // ---- convergence ---------------------------------------------------------------------

  /** A second completed recovery, with nobody else about, changes nothing visible: after a
      complete one there is nothing to recover, and after a partial one the same destinations
      are unresolved again. */
  method RecoverTwice(fs: FileSystem, journal: Path, rewrites: seq<Rewrite>, ghost left: Left)
    returns (first: RecoveryResult, second: RecoveryResult, ghost between: Namespace)
    requires fs.Valid() && journal.name.JournalFile? && Resumable(left) && fs.edits == []
    requires Stands(left, journal, rewrites, fs.outside, fs.disk)
    modifies fs`disk, fs`faults, fs`edits, fs`replaced
    ensures Completed(first) && Completed(second) ==> Visible(fs.disk) == between
    ensures Completed(first) && Completed(second) && !first.RolledBackPartly? ==> second.NothingToRecover?
    ensures Completed(first) && Completed(second) && first.RolledBackPartly? ==>
      second.RolledBackPartly? && second.unresolved == first.unresolved && second.restored == 0
  {
    ghost var txn, next, txn2;
    ghost var v := Visible(fs.disk);
    first, next, txn := RecoverTransactionLocked(fs, journal, rewrites, left);
    between := Visible(fs.disk);
    second := RecoveryCrashed;
    if !Completed(first) { return; }
    if first.RolledBackPartly? {
      PartialAgain(txn, v);
    }
    second, next, txn2 := RecoverTransactionLocked(fs, journal, rewrites, next);
    if Completed(second) && first.RolledBackPartly? {
      assert txn2 == txn;
      RecoverableIsCovered(txn, between);
      SameAgain(txn, v, between, first, second, Visible(fs.disk));
    }
  }

  /** A second rollback of what a partial one left. */
  lemma SameAgain(txn: Txn, v: Namespace, w: Namespace, first: RecoveryResult, second: RecoveryResult, now: Namespace)
    requires ValidRoles(txn) && Get(v, txn.journal) == Some(BytesOf(txn, Prepared)) && AllCovered(txn, w)
    requires first.RolledBackPartly? && RollbackOf(txn, v, first, w)
    requires (second.RolledBackAll? || second.RolledBackPartly?) && RollbackOf(txn, w, second, now)
    ensures second.RolledBackPartly? && second.unresolved == first.unresolved && second.restored == 0 && now == w
  {
    PartialAgain(txn, v);
  }

  lemma RecoverableIsCovered(txn: Txn, v: Namespace)
    requires Recoverable(v, txn.journal) && Get(v, txn.journal) == Some(BytesOf(txn, Prepared))
    ensures ValidRoles(txn) && AllCovered(txn, v)
  {
    assert txn == Txn(txn.journal, txn.entries) && Ready(txn, v);
    var staged := StagedArtifacts(txn.entries);
    forall e | e in txn.entries ensures Covered(v, e) {
      var i :| 0 <= i < |txn.entries| && txn.entries[i] == e;
      assert staged[2 * i] in staged && Authentic(v, staged[2 * i]);
    }
  }

  /** What a second rollback sees after a partial first one: the same destinations unresolved, and
      nothing to restore. It can complete exactly if nothing the first one restored had two equal
      images. */
  lemma PartialAgain(txn: Txn, v: Namespace)
    requires ValidRoles(txn) && Get(v, txn.journal) == Some(BytesOf(txn, Prepared))
    ensures var w := View(v, txn.entries, 0);
      && Get(w, txn.journal) == Get(v, txn.journal) && View(w, txn.entries, 0) == w
      && Tally(txn.entries, StatesIn(w, txn.entries), None, 0).unresolved
         == Tally(txn.entries, StatesIn(v, txn.entries), None, 0).unresolved
      && (AllCovered(txn, w) <==>
            forall e :: e in txn.entries && StateOf(v, e) == AtAfter ==> e.before != e.after)
      && (AllCovered(txn, w) ==> Tally(txn.entries, StatesIn(w, txn.entries), None, 0).restored == [])
  {
    var w := View(v, txn.entries, 0);
    RollbackConverges(txn, v);
    forall k | 0 <= k < |txn.entries|
      ensures txn.journal != txn.entries[k].destination && txn.journal != txn.entries[k].beforePath
    {
      EntriesApart(txn, txn.entries[k], txn.entries[k]);
    }
    ViewPointwise(txn, v, 0, txn.journal);
    CoveredAgain(txn, v, w);
    SameUnresolved(txn.entries, StatesIn(v, txn.entries), StatesIn(w, txn.entries), 0);
    if AllCovered(txn, w) {
      NoneRestored(txn.entries, StatesIn(w, txn.entries), 0);
    }
  }

  ghost predicate Converged(txn: Txn, v: Namespace, w: Namespace)
  {
    forall e :: e in txn.entries ==>
      && StateOf(w, e) == (if StateOf(v, e) == AtAfter && e.before != e.after then AtBefore else StateOf(v, e))
      && (StateOf(w, e) == AtAfter ==> Stuck(w, e))
  }

  lemma CoveredAgain(txn: Txn, v: Namespace, w: Namespace)
    requires Converged(txn, v, w)
    ensures AllCovered(txn, w) <==>
      forall e :: e in txn.entries && StateOf(v, e) == AtAfter ==> e.before != e.after
    ensures AllCovered(txn, w) ==> forall e :: e in txn.entries ==> StateOf(w, e) != AtAfter
  {
    if AllCovered(txn, w) {
      forall e | e in txn.entries ensures StateOf(w, e) != AtAfter {
        assert Covered(w, e);
      }
    }
  }

  lemma {:induction false} SameUnresolved(entries: seq<Entry>, first: seq<DestinationState>,
                                          second: seq<DestinationState>, i: nat)
    requires |first| == |second| == |entries|
    requires forall k :: 0 <= k < |entries| ==> (second[k] == Other <==> first[k] == Other)
    ensures Tally(entries, second, None, i).unresolved == Tally(entries, first, None, i).unresolved
    decreases |entries| - i
  {
    if i < |entries| {
      SameUnresolved(entries, first, second, i + 1);
    }
  }

  lemma {:induction false} NoneRestored(entries: seq<Entry>, states: seq<DestinationState>, i: nat)
    requires |states| == |entries| && forall k :: 0 <= k < |entries| ==> states[k] != AtAfter
    ensures Tally(entries, states, None, i).restored == []
    decreases |entries| - i
  {
    if i < |entries| {
      NoneRestored(entries, states, i + 1);
    }
  }
}
