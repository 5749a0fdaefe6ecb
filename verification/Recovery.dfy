/** Recovering an interrupted transaction, and whole runs: a commit, then any number of
    interrupted recoveries. */
module Recovery {
  import opened Storage
  import opened Wrappers
  import opened Persistence
  import opened JournalModel
  import opened Cleanup
  import opened Rollback
  import opened Preparation
  import opened Commit

  /** What a recovery did, or that it stopped short. */
  datatype RecoveryResult =
    | NothingToRecover
    | RolledBackAll(restored: nat, alreadyBefore: nat)
    | RolledBackPartly(restored: nat, alreadyBefore: nat, unresolved: seq<Path>)
    | CleanedCommitted
    | RecoveryFailed
    | RecoveryCrashed
    | RecoveryInUse

  predicate Completed(r: RecoveryResult) {
    !r.RecoveryFailed? && !r.RecoveryCrashed? && !r.RecoveryInUse?
  }

  /** The phase a recovery can continue from. */
  ghost predicate Resumable(left: Left)
  {
    !left.Refused? && (left.During? ==> !left.phase.Marking?)
  }

  lemma TamperedJournal(txn: Txn, phase: Phase, outside: set<Path>, d: Disk)
    requires txn.journal in outside
    ensures Keeps(d, In(phase, txn, outside))
  {
    assert forall m :: m in Images(d) ==> PhaseAt(phase, txn, outside, m, Visible(d));
  }

  /** What the visible journal tells about the attempt that left it. */
  lemma VisibleJournal(left: Left, journal: Path, rewrites: seq<Rewrite>, outside: set<Path>, d: Disk)
    requires Stands(left, journal, rewrites, outside, d) && journal !in outside && Resumable(left)
    ensures left.NoJournal? ==> journal !in Visible(d)
    ensures left.During? ==>
      Get(Visible(d), journal) in
        {None, Some(BytesOf(left.txn, if left.phase.Clearing? then Committed else Prepared))}
    ensures left.During? && journal !in Visible(d) ==>
      forall e :: e in left.txn.entries ==>
        if left.phase.Clearing? then AfterAt(e, outside, Visible(d)) else BeforeAt(e, outside, Visible(d))
  {
    if left.NoJournal? {
      KeepsVisible(d, Idle(journal, rewrites, outside));
      assert IdleAt(journal, rewrites, outside, Visible(d));
    } else {
      KeepsVisible(d, In(left.phase, left.txn, outside));
      assert PhaseAt(left.phase, left.txn, outside, Visible(d), Visible(d));
      forall e | e in left.txn.entries && journal !in Visible(d)
        ensures if left.phase.Clearing? then AfterAt(e, outside, Visible(d))
                else BeforeAt(e, outside, Visible(d))
      {
        assert EntryAt(left.phase, journal, e, outside, Visible(d), Visible(d));
      }
    }
  }

  /** The phase a prepared journal is rolled back in. One whose publication may still be lost,
      leaving stages without a journal, is not published by recovering from it. */
  ghost function RollbackPhase(left: Left, outside: set<Path>, d: Disk): (phase: Phase)
    ensures Reverting(phase)
  {
    if left.During? && left.phase.Staging? && !JournalLast(d, left.txn, Prepared, outside)
    then Staging else Rolling
  }

  lemma ReadyToRoll(left: Left, journal: Path, rewrites: seq<Rewrite>, outside: set<Path>, d: Disk, txn: Txn)
    requires Stands(left, journal, rewrites, outside, d) && Resumable(left)
    requires ValidRoles(txn) && txn.journal == journal
    requires Get(Visible(d), journal) == Some(BytesOf(txn, Prepared))
    ensures Keeps(d, In(RollbackPhase(left, outside, d), txn, outside))
    ensures journal !in outside ==> left.During? && left.txn == txn && !left.phase.Clearing?
  {
    if journal in outside {
      TamperedJournal(txn, RollbackPhase(left, outside, d), outside, d);
    } else {
      VisibleJournal(left, journal, rewrites, outside, d);
      if left.phase != RollbackPhase(left, outside, d) {
        Weaken(left.phase, Rolling, txn, outside, d);
      }
    }
  }

  lemma ReadyToClear(left: Left, journal: Path, rewrites: seq<Rewrite>, outside: set<Path>, d: Disk, txn: Txn)
    requires Stands(left, journal, rewrites, outside, d) && Resumable(left)
    requires ValidRoles(txn) && txn.journal == journal
    requires Get(Visible(d), journal) == Some(BytesOf(txn, Committed))
    ensures Keeps(d, In(Clearing, txn, outside))
    ensures journal !in outside ==> left == During(Clearing, txn)
  {
    if journal in outside {
      TamperedJournal(txn, Clearing, outside, d);
    } else {
      VisibleJournal(left, journal, rewrites, outside, d);
    }
  }

  /** With no other process about and no two images equal, a rollback is never stuck. */
  lemma NeverStuck(phase: Phase, txn: Txn, d: Disk)
    requires Keeps(d, In(phase, txn, {})) && Reverting(phase) && ValidRoles(txn)
    requires Get(Visible(d), txn.journal) == Some(BytesOf(txn, Prepared))
    requires forall e :: e in txn.entries ==> e.before != e.after
    ensures Ready(txn, Visible(d))
  {
    AuthenticWhere(phase, txn, {}, d);
    KeepsVisible(d, In(phase, txn, {}));
    assert PhaseAt(phase, txn, {}, Visible(d), Visible(d));
    forall e | e in txn.entries && StateOf(Visible(d), e) == AtAfter
      ensures e.beforePath in Visible(d)
    {
      assert EntryAt(phase, txn.journal, e, {}, Visible(d), Visible(d));
    }
  }

  /** The side a completed recovery of `txn` settled on. */
  ghost predicate Settles(r: RecoveryResult, txn: Txn, outside: set<Path>, d: Disk)
  {
    match r
    case RolledBackAll(_, _) => Finished(d, txn, Prepared, outside) && txn.journal !in Visible(d)
    case CleanedCommitted => Finished(d, txn, Committed, outside) && txn.journal !in Visible(d)
    case RolledBackPartly(_, _, _) =>
      txn.journal in outside || (AllBefore(txn, outside, Visible(d))
                                 && exists e :: e in txn.entries && e.destination in outside)
    case _ => true
  }

  /** A recovery that can complete does, unless the one bad step stops it; a failure leaves the journal
      for the next attempt. */
  ghost predicate Recovers(fs: FileSystem, trouble: Status, r: RecoveryResult, txn: Txn, state: JournalState)
    reads fs
  {
    && fs.Since(trouble, r.RecoveryCrashed?) && (trouble.Ok? || fs.faults != [] ==> Completed(r))
    && (r.RecoveryFailed? ==> Get(Visible(fs.disk), txn.journal) == Some(BytesOf(txn, state)))
  }

  /** No journal, or one whose stages are authentic, and under a prepared one every before stage is
      still there: whatever the destinations come to hold, each can be restored. */
  ghost predicate Secured(v: Namespace, journal: Path)
  {
    Sound(v, journal) &&
    match Get(v, journal)
    case Some(Journal(Prepared, entries)) => forall e :: e in entries ==> Get(v, e.beforePath) == Some(e.before)
    case _ => true
  }

  /** Roll a loaded prepared journal back. */
  method RecoverPrepared(fs: FileSystem, txn: Txn, ghost phase: Phase) returns (r: RecoveryResult)
    requires fs.Valid() && ValidRoles(txn) && txn.journal.name.JournalFile?
    requires Reverting(phase) && Keeps(fs.disk, In(phase, txn, fs.outside))
    modifies fs`disk, fs`faults, fs`edits, fs`replaced
    ensures fs.Valid() && Keeps(fs.disk, In(phase, txn, fs.outside))
    ensures Grown(old(fs.replaced), fs.replaced, txn, fs.outside) && Settles(r, txn, fs.outside, fs.disk)
    ensures old(fs.edits) == [] ==> fs.edits == []
    ensures r.RolledBackAll? || r.RolledBackPartly? || r.RecoveryFailed? || r.RecoveryCrashed?
    ensures Completed(r) && old(fs.edits) == [] ==>
      && RollbackOf(txn, Visible(old(fs.disk)), r, Visible(fs.disk))
      && Accounts(txn, Visible(old(fs.disk)), r, Visible(fs.disk))
    ensures old(Unhindered(fs, txn)) ==> Recovers(fs, old(fs.Trouble()), r, txn, Prepared)
    ensures Completed(r) && old(fs.edits) == [] ==> AllCovered(txn, Visible(old(fs.disk)))
    ensures old(fs.edits) == [] ==> StillStuck(txn, Visible(old(fs.disk)), Visible(fs.disk))
  {
    var s, outcome, states := RollbackPrepared(fs, txn, None, phase);
    if !s.Ok? { return if s.Crashed? then RecoveryCrashed else RecoveryFailed; }
    r := if outcome.unresolved == [] then RolledBackAll(|outcome.restored|, |outcome.alreadyBefore|)
         else RolledBackPartly(|outcome.restored|, |outcome.alreadyBefore|, outcome.unresolved);
    PartlyMeansForeign(txn, fs.outside, states);
    OutcomeIsRollback(txn, Visible(old(fs.disk)), states, r, Visible(fs.disk));
    RollbackAccounts(txn, Visible(old(fs.disk)), r, Visible(fs.disk));
  }

  /** An unresolved destination is one that others may edit. */
  lemma PartlyMeansForeign(txn: Txn, outside: set<Path>, states: seq<DestinationState>)
    requires |states| == |txn.entries|
    ensures (&& Tally(txn.entries, states, None, 0).unresolved != []
             && forall k :: 0 <= k < |states| && states[k] == Other ==> txn.entries[k].destination in outside)
      ==> exists e :: e in txn.entries && e.destination in outside
  {
    if Tally(txn.entries, states, None, 0).unresolved != [] {
      UnresolvedWitness(txn.entries, states, None, 0);
    }
  }

  lemma OutcomeIsRollback(txn: Txn, v: Namespace, states: seq<DestinationState>, r: RecoveryResult, now: Namespace)
    requires |states| == |txn.entries|
    requires var o := Tally(txn.entries, states, None, 0);
      r == if o.unresolved == [] then RolledBackAll(|o.restored|, |o.alreadyBefore|)
           else RolledBackPartly(|o.restored|, |o.alreadyBefore|, o.unresolved)
    ensures (&& Found(txn, v, states) && (r.RolledBackPartly? ==> now == View(v, txn.entries, 0))
             && forall p :: p !in Removable(txn) ==> Get(now, p) == Get(View(v, txn.entries, 0), p))
      ==> RollbackOf(txn, v, r, now)
  {
    if Found(txn, v, states) {
      assert states == StatesIn(v, txn.entries);
    }
  }

  lemma StuckOnNothing(left: Left, journal: Path, rewrites: seq<Rewrite>, d: Disk, txn: Txn, phase: Phase)
    requires Stands(left, journal, rewrites, {}, d) && left.During? && left.txn == txn
    requires Reverting(phase) && Keeps(d, In(phase, txn, {})) && ValidRoles(txn)
    requires Get(Visible(d), journal) == Some(BytesOf(txn, Prepared))
    requires forall e :: e in rewrites ==> e.before != e.after
    ensures Ready(txn, Visible(d))
  {
    forall e | e in txn.entries ensures e.before != e.after {
      var i :| 0 <= i < |txn.entries| && txn.entries[i] == e;
      assert rewrites[i] in rewrites;
    }
    NeverStuck(phase, txn, d);
  }

  /** No journal, or a well-formed one whose stages are all authentic. */
  ghost predicate Sound(v: Namespace, journal: Path)
  {
    match Get(v, journal)
    case None => true
    case Some(Document(_)) => false
    case Some(Journal(_, entries)) =>
      ValidRoles(Txn(journal, entries)) && AllAuthentic(Txn(journal, entries), v)
  }

  /** No journal, or one a recovery can follow to its end: every stage is authentic, and under a
      prepared one each destination at its after image still has its before stage. */
  ghost predicate Recoverable(v: Namespace, journal: Path)
  {
    Sound(v, journal) &&
    match Get(v, journal)
    case Some(Journal(Prepared, entries)) => Ready(Txn(journal, entries), v)
    case _ => true
  }

  /** Under a prepared journal, every destination that was stuck is stuck. */
  ghost predicate StuckForGood(v: Namespace, w: Namespace, journal: Path)
  {
    match Get(v, journal)
    case Some(Journal(Prepared, entries)) => StillStuck(Txn(journal, entries), v, w)
    case _ => true
  }

  /** Read, load and authenticate: nothing is changed yet. */
  method OpenJournal(fs: FileSystem, journal: Path)
    returns (s: Status, present: bool, state: JournalState, txn: Txn)
    requires fs.Valid()
    modifies fs`faults
    ensures txn.journal == journal && !s.Exists?
    ensures s.Ok? && !present ==> journal !in Visible(fs.disk)
    ensures s.Ok? && present ==> ValidRoles(txn) && AllAuthentic(txn, Visible(fs.disk))
    ensures s.Ok? && present ==> Get(Visible(fs.disk), journal) == Some(BytesOf(txn, state))
    ensures s.Ok? ==> Sound(Visible(fs.disk), journal)
    ensures old(fs.Steady()) && Sound(Visible(fs.disk), journal) ==> fs.Met(old(fs.Trouble()), s)
  {
    txn, state, present := Txn(journal, []), Prepared, false;
    var content;
    s, content := fs.Read(journal);
    if !s.Ok? || content.None? { return; }
    var loaded;
    if fs.Steady() { NextOfTroubled(fs.faults); }
    s, state, loaded := LoadJournal(fs, journal);
    if !s.Ok? {
      assert content.value.Journal? ==>
        content.value == BytesOf(Txn(journal, content.value.entries), content.value.state);
      return;
    }
    txn, present := loaded, true;
    s := AuthenticateAll(fs, StagedArtifacts(loaded.entries));
  }

  /** Every rewrite changes its file, and what was published passed its role checks. */
  ghost predicate Proper(left: Left, rewrites: seq<Rewrite>)
  {
    (forall w :: w in rewrites ==> w.before != w.after) && (left.During? ==> ValidRoles(left.txn))
  }

  lemma AlwaysSound(left: Left, journal: Path, rewrites: seq<Rewrite>, d: Disk)
    requires Stands(left, journal, rewrites, {}, d) && Resumable(left) && Proper(left, rewrites)
    ensures Sound(Visible(d), journal)
  {
    VisibleJournal(left, journal, rewrites, {}, d);
    if left.During? {
      AuthenticWhere(left.phase, left.txn, {}, d);
    }
  }

  /** With nobody else ever about and distinct images, what an attempt leaves can be recovered. */
  lemma AlwaysRecoverable(left: Left, journal: Path, rewrites: seq<Rewrite>, d: Disk)
    requires Stands(left, journal, rewrites, {}, d) && Resumable(left) && Proper(left, rewrites)
    ensures Recoverable(Visible(d), journal)
  {
    AlwaysSound(left, journal, rewrites, d);
    match Get(Visible(d), journal)
    case Some(Journal(Prepared, entries)) =>
      var txn := Txn(journal, entries);
      var phase := RollbackPhase(left, {}, d);
      ReadyToRoll(left, journal, rewrites, {}, d, txn);
      StuckOnNothing(left, journal, rewrites, d, txn, phase);
    case _ =>
  }

  /** Roll back what `OpenJournal` loaded as prepared, or clean up after a committed one. */
  method RecoverLoaded(fs: FileSystem, txn: Txn, state: JournalState, ghost phase: Phase)
    returns (r: RecoveryResult)
    requires fs.Valid() && ValidRoles(txn) && txn.journal.name.JournalFile?
    requires if state.Prepared? then Reverting(phase) else phase.Clearing?
    requires Keeps(fs.disk, In(phase, txn, fs.outside))
    requires AllAuthentic(txn, Visible(fs.disk)) && Get(Visible(fs.disk), txn.journal) == Some(BytesOf(txn, state))
    modifies fs`disk, fs`faults, fs`edits, fs`replaced
    ensures fs.Valid() && Keeps(fs.disk, In(phase, txn, fs.outside))
    ensures Grown(old(fs.replaced), fs.replaced, txn, fs.outside) && Settles(r, txn, fs.outside, fs.disk)
    ensures old(fs.edits) == [] ==> fs.edits == []
    ensures Completed(r) ==> if state.Committed? then r.CleanedCommitted?
                             else r.RolledBackAll? || r.RolledBackPartly?
    ensures r.RecoveryFailed? || r.RecoveryCrashed? || Completed(r)
    ensures old(fs.edits) == [] ==> Undisturbed(txn, Visible(old(fs.disk)), r, Visible(fs.disk))
    ensures old(Passable(fs, txn, state)) ==> Recovers(fs, old(fs.Trouble()), r, txn, state)
  {
    ghost var v := Visible(fs.disk);
    RecoverableWhenReady(txn, state, v);
    if state.Committed? {
      var s := CleanupTransactionArtifacts(fs, txn, Committed, Clearing);
      r := if s.Ok? then CleanedCommitted else if s.Crashed? then RecoveryCrashed else RecoveryFailed;
    } else {
      r := RecoverPrepared(fs, txn, phase);
    }
    StuckFor(txn, state, v, Visible(fs.disk));
  }

  /** A recovery nobody disturbed, from `v` to `now`: the outcome of a rollback is a function of what was
      visible, what completed could, and what was stuck still is. */
  ghost predicate Undisturbed(txn: Txn, v: Namespace, r: RecoveryResult, now: Namespace)
  {
    && (r.RolledBackAll? || r.RolledBackPartly? ==> RollbackOf(txn, v, r, now) && Accounts(txn, v, r, now))
    && (Completed(r) ==> Recoverable(v, txn.journal)) && StuckForGood(v, now, txn.journal)
  }

  /** Follow a journal that was loaded and whose stages are authentic. */
  method RecoverPresent(fs: FileSystem, txn: Txn, state: JournalState, rewrites: seq<Rewrite>, ghost left: Left)
    returns (r: RecoveryResult, ghost left': Left)
    requires fs.Valid() && ValidRoles(txn) && txn.journal.name.JournalFile? && Resumable(left)
    requires Stands(left, txn.journal, rewrites, fs.outside, fs.disk)
    requires AllAuthentic(txn, Visible(fs.disk)) && Get(Visible(fs.disk), txn.journal) == Some(BytesOf(txn, state))
    modifies fs`disk, fs`faults, fs`edits, fs`replaced
    ensures fs.Valid() && Stands(left', txn.journal, rewrites, fs.outside, fs.disk) && Resumable(left')
    ensures Grown(old(fs.replaced), fs.replaced, txn, fs.outside) && Settles(r, txn, fs.outside, fs.disk)
    ensures old(fs.edits) == [] ==> fs.edits == []
    ensures SameAttempt(left, left')
    ensures left.During? && old(JournalLast(fs.disk, left.txn, Side(left.phase), fs.outside)) ==>
      JournalLast(fs.disk, left.txn, Side(left.phase), fs.outside)
    ensures r.RecoveryFailed? || r.RecoveryCrashed? || Completed(r)
    ensures Completed(r) ==> if state.Committed? then r.CleanedCommitted?
                             else r.RolledBackAll? || r.RolledBackPartly?
    ensures txn.journal !in fs.outside ==>
      && left.During? && left.txn == txn
      && left' == During(if state.Committed? then Clearing
                         else RollbackPhase(left, fs.outside, old(fs.disk)), txn)
    ensures old(fs.edits) == [] ==> Undisturbed(txn, Visible(old(fs.disk)), r, Visible(fs.disk))
    ensures old(fs.Calm()) ==> (Completed(r) <==> Recoverable(Visible(old(fs.disk)), txn.journal))
    ensures old(Passable(fs, txn, state)) ==> Recovers(fs, old(fs.Trouble()), r, txn, state)
  {
    ghost var phase;
    phase, left' := PhaseToFollow(left, rewrites, fs.outside, fs.disk, txn, state);
    RecoverableWhenReady(txn, state, Visible(fs.disk));
    r := RecoverLoaded(fs, txn, state, phase);
    TamperedStands(left, txn.journal, rewrites, fs.outside, fs.disk);
    if txn.journal !in fs.outside && !phase.Staging? {
      PhasesKeepJournalLast(phase, txn, fs.outside, fs.disk);
    }
  }

  /** The phase a journal that was found is followed in, and what the attempt then is. */
  lemma PhaseToFollow(left: Left, rewrites: seq<Rewrite>, outside: set<Path>, d: Disk, txn: Txn, state: JournalState)
    returns (phase: Phase, left': Left)
    requires ValidRoles(txn) && txn.journal.name.JournalFile? && Resumable(left)
    requires Stands(left, txn.journal, rewrites, outside, d)
    requires AllAuthentic(txn, Visible(d)) && Get(Visible(d), txn.journal) == Some(BytesOf(txn, state))
    ensures phase == if state.Committed? then Clearing else RollbackPhase(left, outside, d)
    ensures Keeps(d, In(phase, txn, outside)) && SameAttempt(left, left') && Resumable(left')
    ensures txn.journal !in outside ==> left.During? && left.txn == txn && left' == During(phase, txn)
    ensures txn.journal in outside ==> left' == left
  {
    left', phase := left, if state.Committed? then Clearing else RollbackPhase(left, outside, d);
    if state.Committed? {
      ReadyToClear(left, txn.journal, rewrites, outside, d, txn);
    } else {
      ReadyToRoll(left, txn.journal, rewrites, outside, d, txn);
    }
    if txn.journal !in outside {
      left' := During(phase, txn);
    }
  }

  lemma RecoverableWhenReady(txn: Txn, state: JournalState, v: Namespace)
    requires ValidRoles(txn) && AllAuthentic(txn, v) && Get(v, txn.journal) == Some(BytesOf(txn, state))
    ensures Recoverable(v, txn.journal) <==> (state.Prepared? ==> Ready(txn, v))
    ensures AllCovered(txn, v) ==> Recoverable(v, txn.journal)
  {
    CoveredIsReady(txn, v);
    assert txn == Txn(txn.journal, txn.entries);
  }

  /** A rollback or a cleanup that nothing but a step going wrong can stop. */
  ghost predicate Passable(fs: FileSystem, txn: Txn, state: JournalState)
    reads fs
  {
    if state.Prepared? then Unhindered(fs, txn) else Smooth(fs, txn) && AllAuthentic(txn, Visible(fs.disk))
  }

  lemma WhenPassable(fs: FileSystem, txn: Txn, state: JournalState)
    requires ValidRoles(txn) && Get(Visible(fs.disk), txn.journal) == Some(BytesOf(txn, state))
    ensures CanFollow(fs, txn.journal) ==> Passable(fs, txn, state)
  {
    var v := Visible(fs.disk);
    assert txn == Txn(txn.journal, txn.entries);
    if fs.Steady() && OnlyDocuments(fs.outside, txn.journal) && Secured(v, txn.journal) {
      StagesArePrivate(txn, fs.outside);
      if state.Prepared? {
        forall e | e in txn.entries ensures Get(v, e.beforePath) == Some(e.before) {
        }
        CoveredIsReady(txn, v);
      }
    }
  }

  lemma StuckFor(txn: Txn, state: JournalState, v: Namespace, w: Namespace)
    requires Get(v, txn.journal) == Some(BytesOf(txn, state))
    ensures StuckForGood(v, w, txn.journal) <==> (state.Prepared? ==> StillStuck(txn, v, w))
  {
    assert txn == Txn(txn.journal, txn.entries);
  }

  /** Nobody else is about and what is visible is recoverable, or others edit documents and every before
      stage is there; and at most one step goes wrong. */
  ghost predicate CanFollow(fs: FileSystem, journal: Path)
    reads fs
  {
    || (fs.Orderly() && Recoverable(Visible(fs.disk), journal))
    || (fs.Steady() && OnlyDocuments(fs.outside, journal) && Secured(Visible(fs.disk), journal))
  }

  /** It completes, unless it met the bad step; a failure leaves the journal there. */
  ghost predicate Follows(fs: FileSystem, trouble: Status, r: RecoveryResult, journal: Path, v: Namespace,
                          now: Namespace)
    reads fs
  {
    && fs.Since(trouble, r.RecoveryCrashed?) && (trouble.Ok? || fs.faults != [] ==> Completed(r))
    && (r.RecoveryFailed? ==> Get(now, journal) == Get(v, journal))
  }

  /** Recover one journal, or find there is none. `left` is what the interrupted attempt left;
      recovering keeps to the same side: a rollback stays a rollback, a cleanup a cleanup. */
  method RecoverTransactionLocked(fs: FileSystem, journal: Path, rewrites: seq<Rewrite>, ghost left: Left)
    returns (r: RecoveryResult, ghost left': Left, ghost txn: Txn)
    requires fs.Valid() && journal.name.JournalFile? && Resumable(left)
    requires Stands(left, journal, rewrites, fs.outside, fs.disk)
    modifies fs`disk, fs`faults, fs`edits, fs`replaced
    ensures fs.Valid() && Stands(left', journal, rewrites, fs.outside, fs.disk) && Resumable(left')
    ensures Grown(old(fs.replaced), fs.replaced, txn, fs.outside) && txn.journal == journal
    ensures fs.replaced == old(fs.replaced) || journal in fs.outside || (left.During? && txn == left.txn)
    ensures old(fs.edits) == [] ==> fs.edits == []
    ensures !r.RecoveryInUse? && Settles(r, txn, fs.outside, fs.disk)
    // it keeps to the side of the attempt, and the journal goes last if it did until now
    ensures SameAttempt(left, left')
    ensures LastOrNothing(left', fs.outside, fs.disk)
    ensures left.During? && old(JournalLast(fs.disk, left.txn, Side(left.phase), fs.outside)) ==>
      JournalLast(fs.disk, left.txn, Side(left.phase), fs.outside)
    // nothing there: nothing changes
    ensures journal !in Visible(old(fs.disk)) ==>
      fs.disk == old(fs.disk) && left' == left && (Completed(r) ==> r.NothingToRecover?)
    ensures r.NothingToRecover? ==> journal !in Visible(old(fs.disk)) && left' == left
    // a journal: the result follows its marker
    ensures Completed(r) && !r.NothingToRecover? ==> ValidRoles(txn)
    ensures Completed(r) && !r.NothingToRecover? ==>
      Get(Visible(old(fs.disk)), journal)
      == Some(BytesOf(txn, if r.CleanedCommitted? then Committed else Prepared))
    ensures Completed(r) && !r.NothingToRecover? && journal !in fs.outside ==>
      && left.During? && left.txn == txn
      && left' == During(if r.CleanedCommitted? then Clearing
                         else RollbackPhase(left, fs.outside, old(fs.disk)), txn)
    // an aliased or misnamed path, or a stage that is not what was recorded, stops everything
    ensures !Sound(Visible(old(fs.disk)), journal) ==> !Completed(r) && fs.disk == old(fs.disk)
    // undisturbed, the outcome is read off what was visible: a rollback is partial exactly if some
    // destination holds neither image, and those are what it reports
    ensures old(fs.edits) == [] ==> Undisturbed(txn, Visible(old(fs.disk)), r, Visible(fs.disk))
    // without faults and other processes it completes exactly if what is visible is recoverable
    ensures old(fs.Calm()) ==> (Completed(r) <==> Recoverable(Visible(old(fs.disk)), journal))
    // and still does with one bad step to come, unless it meets it; so it does whatever others do to
    // documents meanwhile, if every before stage is there
    ensures old(CanFollow(fs, journal)) ==>
      Follows(fs, old(fs.Trouble()), r, journal, Visible(old(fs.disk)), Visible(fs.disk))
  {
    left' := left;
    StandsLast(left, journal, rewrites, fs.outside, fs.disk);
    var s, present, state, loaded := OpenJournal(fs, journal);
    txn := loaded;
    if !s.Ok? || !present {
      r := if s.Ok? then NothingToRecover else if s.Crashed? then RecoveryCrashed else RecoveryFailed;
      NothingFollowed(txn, Visible(fs.disk), r, fs.outside, fs.disk);
      return;
    }
    WhenPassable(fs, loaded, state);
    r, left' := RecoverPresent(fs, loaded, state, rewrites, left);
    StandsLast(left', journal, rewrites, fs.outside, fs.disk);
  }

  /** A recovery that followed no journal, and changed nothing. */
  lemma NothingFollowed(txn: Txn, v: Namespace, r: RecoveryResult, outside: set<Path>, d: Disk)
    requires r.RecoveryFailed? || r.RecoveryCrashed? || (r.NothingToRecover? && txn.journal !in v)
    ensures Undisturbed(txn, v, r, v) && Settles(r, txn, outside, d)
  {
  }

  /** Still the same transaction, or still none, and on the same side; what was published stays
      published. */
  ghost predicate SameAttempt(left: Left, left': Left)
  {
    match left
    case During(phase, txn) =>
      && left'.During? && left'.txn == txn && Side(left'.phase) == Side(phase)
      && (left'.phase.Staging? ==> phase.Staging?)
    case _ => left' == left
  }

  lemma TamperedStands(left: Left, journal: Path, rewrites: seq<Rewrite>, outside: set<Path>, d: Disk)
    requires !left.Refused?
    requires left.During? ==>
      && left.txn.journal == journal && Corresponds(left.txn.entries, rewrites)
      && ProperNames(left.txn) && (left.phase != Staging ==> ValidRoles(left.txn)) && !left.phase.Closing?
    ensures journal in outside ==> Stands(left, journal, rewrites, outside, d)
  {
    if journal in outside {
      if left.During? {
        TamperedJournal(left.txn, left.phase, outside, d);
      } else {
        assert forall m :: m in Images(d) ==> IdleAt(journal, rewrites, outside, m);
      }
    }
  }

  function StatesIn(v: Namespace, entries: seq<Entry>): seq<DestinationState>
  {
    seq(|entries|, i requires 0 <= i < |entries| => StateOf(v, entries[i]))
  }

  /** The whole undisturbed rollback of what was visible as `v`: what it counts and reports,
      and what every path but the removed artifacts then holds. */
  ghost predicate RollbackOf(txn: Txn, v: Namespace, r: RecoveryResult, after: Namespace)
    requires r.RolledBackAll? || r.RolledBackPartly?
  {
    var o := Tally(txn.entries, StatesIn(v, txn.entries), None, 0);
    && r.restored == |o.restored| && r.alreadyBefore == |o.alreadyBefore|
    && (r.RolledBackPartly? ==> r.unresolved == o.unresolved != [] && after == View(v, txn.entries, 0))
    && (r.RolledBackAll? ==>
          && o.unresolved == []
          && forall p :: p !in Removable(txn) ==> Get(after, p) == Get(View(v, txn.entries, 0), p))
  }

  /** The same, read off the namespace: how many destinations held an after image and how many only a
      before image, which ones held neither, and what became of every file. It is partial exactly if
      some destination holds neither. */
  ghost predicate Accounts(txn: Txn, v: Namespace, r: RecoveryResult, now: Namespace)
    requires r.RolledBackAll? || r.RolledBackPartly?
  {
    && r.restored == |set e | e in txn.entries && Get(v, e.destination) == Some(e.after)|
    && r.alreadyBefore
       == |set e | e in txn.entries && Get(v, e.destination) == Some(e.before) != Some(e.after)|
    && PutBack(txn, v, now)
    && (r.RolledBackPartly? <==> exists e :: e in txn.entries && Foreign(v, e))
    && (r.RolledBackPartly? ==>
          && LastFirst(txn.entries, r.unresolved) && Retained(txn, v, now)
          && forall p :: p in r.unresolved <==>
               (exists e :: e in txn.entries && e.destination == p && Foreign(v, e)))
  }

  lemma RollbackAccounts(txn: Txn, v: Namespace, r: RecoveryResult, now: Namespace)
    requires ValidRoles(txn)
    ensures (r.RolledBackAll? || r.RolledBackPartly?) && RollbackOf(txn, v, r, now) ==> Accounts(txn, v, r, now)
  {
    if (r.RolledBackAll? || r.RolledBackPartly?) && RollbackOf(txn, v, r, now) {
      var o := Tally(txn.entries, StatesIn(v, txn.entries), None, 0);
      StatesCount(txn, v);
      WhatIsUnresolved(txn, v, o);
      RolledBackPuts(txn, v, r, now);
    }
  }

  lemma RolledBackPuts(txn: Txn, v: Namespace, r: RecoveryResult, now: Namespace)
    requires ValidRoles(txn) && (r.RolledBackAll? || r.RolledBackPartly?) && RollbackOf(txn, v, r, now)
    ensures PutBack(txn, v, now) && (r.RolledBackPartly? ==> Retained(txn, v, now))
  {
    ViewOfEntries(txn, v);
  }

  lemma StatesCount(txn: Txn, v: Namespace)
    requires ValidRoles(txn)
    ensures var o := Tally(txn.entries, StatesIn(v, txn.entries), None, 0);
      && |o.restored| == |set e | e in txn.entries && Get(v, e.destination) == Some(e.after)|
      && |o.alreadyBefore|
         == |set e | e in txn.entries && Get(v, e.destination) == Some(e.before) != Some(e.after)|
  {
    RolesAreDistinct(txn);
    TallyCounts(txn.entries, StatesIn(v, txn.entries), None, 0);
    InStates(txn.entries, v, AtAfter);
    InStates(txn.entries, v, AtBefore);
    SameHolders(txn.entries, v);
  }

  lemma InStates(entries: seq<Entry>, v: Namespace, state: DestinationState)
    ensures EntriesFrom(entries, StatesIn(v, entries), state, 0) == set e | e in entries && StateOf(v, e) == state
  {
  }

  lemma SameHolders(entries: seq<Entry>, v: Namespace)
    ensures (set e | e in entries && StateOf(v, e) == AtAfter)
         == set e | e in entries && Get(v, e.destination) == Some(e.after)
    ensures (set e | e in entries && StateOf(v, e) == AtBefore)
         == set e | e in entries && Get(v, e.destination) == Some(e.before) != Some(e.after)
  {
  }

  /** The unresolved destinations are the foreign ones, and there are some if any is foreign. */
  lemma WhatIsUnresolved(txn: Txn, v: Namespace, o: Outcome)
    requires ValidRoles(txn) && o == Tally(txn.entries, StatesIn(v, txn.entries), None, 0)
    ensures LastFirst(txn.entries, o.unresolved)
    ensures forall p :: p in o.unresolved <==>
      (exists e :: e in txn.entries && e.destination == p && Foreign(v, e))
    ensures o.unresolved != [] <==> exists e :: e in txn.entries && Foreign(v, e)
  {
    TallyReports(txn, v, StatesIn(v, txn.entries), None);
    if o.unresolved != [] {
      assert o.unresolved[0] in o.unresolved;
    }
    if e :| e in txn.entries && Foreign(v, e) {
      assert e.destination in o.unresolved;
    }
  }
}
