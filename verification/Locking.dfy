/** The lock capability that keeps commits and recoveries of one project apart. */
module Locking {
  import opened Storage
  import opened Wrappers
  import opened Persistence
  import opened JournalModel
  import opened Cleanup
  import opened Rollback
  import opened Preparation
  import opened Commit
  import opened Recovery

  class ReconcileLock {
    const projectRoot: string
    var active: bool
    var inUse: bool

    constructor (projectRoot: string)
      ensures active && !inUse && this.projectRoot == projectRoot
    {
      this.projectRoot, active, inUse := projectRoot, true, false;
    }

    method Deactivate()
      modifies this`active
      ensures !active
    {
      active := false;
    }

    /** Reserve the capability for one operation. */
    method ClaimOperation() returns (ok: bool)
      modifies this`inUse
      ensures ok <==> active && !old(inUse)
      ensures inUse == (ok || old(inUse))
    {
      ok := active && !inUse;
      if ok { inUse := true; }
    }

    method ReleaseOperation()
      modifies this`inUse
      ensures !inUse
    {
      inUse := false;
    }
  }

  function JournalOf(projectRoot: string): Path
  {
    Path(projectRoot, JournalFile)
  }

  /** Commit under the lease; without it nothing is read or written. */
  method CommitRewrites(fs: FileSystem, lock: ReconcileLock, projectRoot: string,
                        rewrites: seq<Rewrite>)
    returns (r: CommitResult, ghost left: Left)
    requires fs.Valid()
    requires JournalOf(projectRoot) in Visible(fs.disk)
          || Keeps(fs.disk, Idle(JournalOf(projectRoot), rewrites, fs.outside))
    modifies fs`disk, fs`faults, fs`edits, fs`replaced, lock`inUse
    ensures fs.Valid() && Stands(left, JournalOf(projectRoot), rewrites, fs.outside, fs.disk)
    ensures r.InProgress? <==> !lock.active || old(lock.inUse) || lock.projectRoot != projectRoot
    ensures r.InProgress? ==> fs.disk == old(fs.disk) && fs.faults == old(fs.faults)
    // a journal that is already there refuses the commit, which then changes nothing
    ensures left.Refused? <==> Path(projectRoot, JournalFile) in Visible(old(fs.disk))
    ensures left.Refused? ==> fs.disk == old(fs.disk) && !r.Reconciled? && !RolledBack(r)
    ensures lock.inUse == (r.InProgress? && old(lock.inUse))
    // with it, the commit is the locked one
    ensures left.During? ==> Grown(old(fs.replaced), fs.replaced, left.txn, fs.outside)
    ensures !left.During? ==> fs.replaced == old(fs.replaced)
    ensures LastOrNothing(left, fs.outside, fs.disk)
    ensures r.Reconciled? ==> left.During? && Finished(fs.disk, left.txn, Committed, fs.outside)
    ensures RolledBack(r) ==> left.During? && Finished(fs.disk, left.txn, Prepared, fs.outside)
    ensures (&& !r.InProgress? && old(fs.Calm()) && OnlyDocuments(fs.outside, JournalOf(projectRoot))
             && ProperRewrites(JournalOf(projectRoot), rewrites)
             && JournalOf(projectRoot) !in Visible(old(fs.disk)))
      ==> fs.Calm() && EndsAsFound(rewrites, Visible(old(fs.disk)), r, Visible(fs.disk))
    ensures (&& !r.InProgress? && old(fs.Orderly()) && OnlyDocuments(fs.outside, JournalOf(projectRoot))
             && ProperRewrites(JournalOf(projectRoot), rewrites)
             && JournalOf(projectRoot) !in Visible(old(fs.disk)) && AllHold(rewrites, Visible(old(fs.disk)), Before))
      ==> && fs.Since(old(fs.Trouble()), r.Interrupted?)
          && (!r.Interrupted? ==> OneSided(rewrites, JournalOf(projectRoot), r, left, Visible(fs.disk)))
    ensures (&& !r.InProgress? && old(fs.faults) == [] && OnlyDocuments(fs.outside, JournalOf(projectRoot))
             && ProperRewrites(JournalOf(projectRoot), rewrites)
             && JournalOf(projectRoot) !in Visible(old(fs.disk)))
      ==> fs.faults == [] && Concluded(rewrites, JournalOf(projectRoot), fs.outside, r, left, Visible(fs.disk))
  {
    left := if JournalOf(projectRoot) in Visible(fs.disk) then Refused else NoJournal;
    if !lock.active || lock.projectRoot != projectRoot { return InProgress, left; }
    var ok := lock.ClaimOperation();
    if !ok { return InProgress, left; }
    ghost var txn;
    r, left, txn := CommitRewritesLocked(fs, JournalOf(projectRoot), rewrites);
    lock.ReleaseOperation();
  }

  /** Recover under the lease; without it nothing is read or written. */
  method RecoverTransaction(fs: FileSystem, lock: ReconcileLock, projectRoot: string,
                            rewrites: seq<Rewrite>, ghost left: Left)
    returns (r: RecoveryResult, ghost left': Left, ghost txn: Txn)
    requires fs.Valid() && Resumable(left)
    requires Stands(left, JournalOf(projectRoot), rewrites, fs.outside, fs.disk)
    modifies fs`disk, fs`faults, fs`edits, fs`replaced, lock`inUse
    ensures fs.Valid() && Stands(left', JournalOf(projectRoot), rewrites, fs.outside, fs.disk)
    ensures r.RecoveryInUse? <==> !lock.active || old(lock.inUse) || lock.projectRoot != projectRoot
    ensures r.RecoveryInUse? ==> fs.disk == old(fs.disk) && fs.faults == old(fs.faults)
    ensures lock.inUse == (r.RecoveryInUse? && old(lock.inUse))
    // with it, the recovery is the locked one
    ensures SameAttempt(left, left') && LastOrNothing(left', fs.outside, fs.disk)
    ensures Settles(r, txn, fs.outside, fs.disk) && Grown(old(fs.replaced), fs.replaced, txn, fs.outside)
    ensures r.NothingToRecover? ==> Path(projectRoot, JournalFile) !in Visible(old(fs.disk)) && left' == left
    ensures Completed(r) && !r.NothingToRecover? ==>
      Get(Visible(old(fs.disk)), JournalOf(projectRoot))
      == Some(BytesOf(txn, if r.CleanedCommitted? then Committed else Prepared))
    ensures old(fs.edits) == [] && (r.RolledBackAll? || r.RolledBackPartly?) ==>
      Accounts(txn, Visible(old(fs.disk)), r, Visible(fs.disk))
    ensures !r.RecoveryInUse? && old(fs.Calm()) ==>
      (Completed(r) <==> Recoverable(Visible(old(fs.disk)), JournalOf(projectRoot)))
    // which it always is with distinct images and nobody else ever about
    ensures !r.RecoveryInUse? && old(fs.Calm()) && fs.outside == {} && Proper(left, rewrites) ==> Completed(r)
    ensures !r.RecoveryInUse? && old(CanFollow(fs, JournalOf(projectRoot))) ==>
      Follows(fs, old(fs.Trouble()), r, JournalOf(projectRoot), Visible(old(fs.disk)), Visible(fs.disk))
  {
    left', txn := left, Txn(JournalOf(projectRoot), []);
    if !lock.active || lock.projectRoot != projectRoot {
      StandsLast(left, JournalOf(projectRoot), rewrites, fs.outside, fs.disk);
      return RecoveryInUse, left', txn;
    }
    var ok := lock.ClaimOperation();
    if !ok {
      StandsLast(left, JournalOf(projectRoot), rewrites, fs.outside, fs.disk);
      return RecoveryInUse, left', txn;
    }
    if fs.outside == {} && Proper(left, rewrites) {
      AlwaysRecoverable(left, JournalOf(projectRoot), rewrites, fs.disk);
    }
    r, left', txn := RecoverTransactionLocked(fs, JournalOf(projectRoot), rewrites, left);
    lock.ReleaseOperation();
  }
}
