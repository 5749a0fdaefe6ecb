/** Committing a batch of rewrites: prepare, apply, mark and clean up, or abort and roll back. */
module Commit {
  import opened Storage
  import opened Wrappers
  import opened Persistence
  import opened JournalModel
  import opened Cleanup
  import opened Rollback
  import opened Preparation

  // ---- applying one entry ------------------------------------------------------------

  /** Why the apply loop stopped, if it did. A stage that could not be authenticated, or was
      missing, is not authenticated again by the abort. */
  datatype ApplyResult = Applied | Conflict | Unreadable | BadStage | NotReplaced | ApplyCrashed

  lemma ApplyIsGuarded(txn: Txn, outside: set<Path>, d: Disk, e: Entry)
    requires ValidRoles(txn) && e in txn.entries
    requires Get(Visible(d), e.destination) == Some(e.before)
    ensures Guarded(Replacement(d, e.destination, e.after), txn, outside)
  {
    forall f | f in txn.entries && f.destination == e.destination ensures f == e {
      EntriesApart(txn, e, f);
    }
  }

  /** Applied exactly if the destination holds its before image; otherwise a conflict if a file is there,
      a failure if none is. */
  ghost predicate Decides(e: Entry, v: Namespace, r: ApplyResult)
  {
    if Get(v, e.destination) == Some(e.before) then r.Applied?
    else r == if e.destination in v then Conflict else Unreadable
  }

  /** The destination is as it was, or it is a candidate and went from its before to its after image. */
  ghost predicate NextMoved(e: Entry, v: Namespace, w: Namespace, candidates: set<Path>)
  {
    || Get(w, e.destination) == Get(v, e.destination)
    || (&& e.destination in candidates && Get(v, e.destination) == Some(e.before)
        && Get(w, e.destination) == Some(e.after))
  }

  /** The destination only joined the candidates if it held its before image; else it is as it was. */
  ghost predicate Moved(e: Entry, v: Namespace, w: Namespace, known: set<Path>, candidates: set<Path>)
  {
    && NextMoved(e, v, w, candidates) && known <= candidates <= known + {e.destination}
    && (e.destination in candidates && e.destination !in known ==> Get(v, e.destination) == Some(e.before))
  }

  /** The i-th entry: another process may run; then check, authenticate, rename and flush. */
  method ApplyNext(fs: FileSystem, txn: Txn, i: nat, candidates: set<Path>)
    returns (r: ApplyResult, candidates': set<Path>)
    requires fs.Valid() && ValidRoles(txn) && i < |txn.entries|
    requires Keeps(fs.disk, In(Applying, txn, fs.outside))
    modifies fs`disk, fs`faults, fs`edits, fs`replaced
    ensures fs.Valid() && Keeps(fs.disk, In(Applying, txn, fs.outside))
    ensures Grown(old(fs.replaced), fs.replaced, txn, fs.outside)
    ensures candidates <= candidates' <= candidates + {txn.entries[i].destination}
    ensures forall k :: |old(fs.replaced)| <= k < |fs.replaced| ==> fs.replaced[k].path in candidates'
    ensures var e := txn.entries[i];
      Spares(old(fs.disk), fs.disk, old(fs.Editable()) + {e.destination, e.afterPath})
    ensures fs.Editable() <= old(fs.Editable())
    ensures r.Applied? ==> Held(fs.disk, txn.entries[i].destination, Some(txn.entries[i].after), {})
    ensures r in {Applied, NotReplaced} ==> candidates' == candidates + {txn.entries[i].destination}
    ensures r in {Conflict, Unreadable, BadStage} ==> candidates' == candidates
    // undisturbed, it is the destination that decides, unless a step goes wrong
    ensures old(fs.Orderly()) && Get(Visible(old(fs.disk)), txn.entries[i].afterPath) == Some(txn.entries[i].after) ==>
      && fs.Since(old(fs.Trouble()), r.ApplyCrashed?)
      && (if old(fs.Trouble()).Ok? || fs.faults != [] then Decides(txn.entries[i], Visible(old(fs.disk)), r)
          else !r.Applied?)
    ensures old(fs.edits) == [] ==>
      Moved(txn.entries[i], Visible(old(fs.disk)), Visible(fs.disk), candidates, candidates')
    ensures old(fs.edits) == [] && r.Conflict? ==>
      Get(Visible(old(fs.disk)), txn.entries[i].destination) != Some(txn.entries[i].before)
    ensures fs.edits == if old(fs.edits) == [] then [] else old(fs.edits)[1..]
    // whatever others do elsewhere, it is the destination that decides, unless a step goes wrong
    ensures (&& old(fs.faults) == [] && txn.entries[i].afterPath !in old(fs.Editable())
             && Get(Visible(old(fs.disk)), txn.entries[i].afterPath) == Some(txn.entries[i].after))
      ==> fs.faults == [] && r in {Applied, Conflict, Unreadable}
  {
    var e := txn.entries[i];
    candidates' := candidates;
    OutsideIgnored(Applying, txn, fs.outside);
    fs.Environment(In(Applying, txn, fs.outside));
    var s, content := fs.Read(e.destination);
    if s.Crashed? { return ApplyCrashed, candidates'; }
    if !s.Ok? { return Unreadable, candidates'; }
    if content != Some(e.before) {
      return if content.None? then Unreadable else Conflict, candidates';
    }
    r, candidates' := RenameIn(fs, txn, e, candidates);
  }

  /** The destination holds its before image: authenticate the after stage and rename it in. */
  method RenameIn(fs: FileSystem, txn: Txn, e: Entry, candidates: set<Path>)
    returns (r: ApplyResult, candidates': set<Path>)
    requires fs.Valid() && ValidRoles(txn) && e in txn.entries && Keeps(fs.disk, In(Applying, txn, fs.outside))
    requires Get(Visible(fs.disk), e.destination) == Some(e.before)
    modifies fs`disk, fs`faults, fs`replaced
    ensures Keeps(fs.disk, In(Applying, txn, fs.outside))
    ensures Grown(old(fs.replaced), fs.replaced, txn, fs.outside)
    ensures OnlyAt(old(fs.replaced), fs.replaced, e.destination)
    ensures fs.replaced == old(fs.replaced) || e.destination in candidates'
    ensures Spares(old(fs.disk), fs.disk, {e.destination, e.afterPath})
    ensures r in {Applied, NotReplaced} ==> candidates' == candidates + {e.destination}
    ensures r.BadStage? ==> candidates' == candidates
    ensures r in {Applied, BadStage, NotReplaced, ApplyCrashed}
    ensures r.Applied? ==> Held(fs.disk, e.destination, Some(e.after), {})
    ensures Moved(e, Visible(old(fs.disk)), Visible(fs.disk), candidates, candidates')
    ensures old(fs.Steady()) && Get(Visible(old(fs.disk)), e.afterPath) == Some(e.after) ==>
      && fs.Since(old(fs.Trouble()), r.ApplyCrashed?)
      && (r.Applied? <==> old(fs.Trouble()).Ok? || fs.faults != [])
  {
    candidates' := candidates;
    var s, present := Authenticate(fs, Artifact(e.afterPath, e.after));
    if s.Crashed? { return ApplyCrashed, candidates'; }
    if !s.Ok? || !present { return BadStage, candidates'; }
    // The entry joins before its rename is attempted: it can fail with the rename done.
    candidates' := candidates + {e.destination};
    ApplyKeepsApplying(txn, fs.outside, fs.disk, e);
    ApplyIsGuarded(txn, fs.outside, fs.disk, e);
    ghost var move, log := Replacement(fs.disk, e.destination, e.after), fs.replaced;
    s := fs.ReplaceStaged(e.afterPath, e.destination, In(Applying, txn, fs.outside));
    GrownOnce(log, fs.replaced, move, txn, fs.outside);
    r := if s.Ok? then Applied else if s.Crashed? then ApplyCrashed else NotReplaced;
  }

  ghost predicate AppliedUpTo(txn: Txn, outside: set<Path>, d: Disk, i: nat)
  {
    forall k :: 0 <= k < i && k < |txn.entries| ==>
      Held(d, txn.entries[k].destination, Some(txn.entries[k].after), outside)
  }

  lemma OneMoreApplied(txn: Txn, outside: set<Path>, a: Disk, b: Disk, i: nat, editable: set<Path>)
    requires ValidRoles(txn) && i < |txn.entries|
    requires AppliedUpTo(txn, outside, a, i) && ToApply(txn, outside, a, i) && editable <= outside
    requires var e := txn.entries[i]; Spares(a, b, editable + {e.destination, e.afterPath})
    requires Held(b, txn.entries[i].destination, Some(txn.entries[i].after), {})
    ensures AppliedUpTo(txn, outside, b, i + 1) && ToApply(txn, outside, b, i + 1)
  {
    var touched := editable + {txn.entries[i].destination, txn.entries[i].afterPath};
    forall k | 0 <= k < i
      ensures Held(b, txn.entries[k].destination, Some(txn.entries[k].after), outside)
    {
      EntriesApart(txn, txn.entries[k], txn.entries[i]);
      HeldSpared(a, b, touched, txn.entries[k].destination, Some(txn.entries[k].after), outside);
    }
    forall k | i < k < |txn.entries|
      ensures Held(b, txn.entries[k].afterPath, Some(txn.entries[k].after), outside)
      ensures txn.journal in outside || BeforeAt(txn.entries[k], outside, Visible(b))
    {
      EntriesApart(txn, txn.entries[k], txn.entries[i]);
      EntriesApart(txn, txn.entries[i], txn.entries[k]);
      HeldSpared(a, b, touched, txn.entries[k].afterPath, Some(txn.entries[k].after), outside);
      assert txn.journal in outside || BeforeAt(txn.entries[k], outside, Visible(a));
    }
  }

  /** What a rollback needs is durably there: the prepared journal and every before stage. */
  ghost predicate Undoable(txn: Txn, outside: set<Path>, d: Disk)
  {
    BeforesHeld(txn, outside, d) && Held(d, txn.journal, Some(BytesOf(txn, Prepared)), outside)
  }

  /** Applying the i-th entry, or trying to, leaves that alone. */
  lemma StillUndoable(txn: Txn, outside: set<Path>, a: Disk, b: Disk, i: nat, editable: set<Path>)
    requires ValidRoles(txn) && i < |txn.entries| && Undoable(txn, outside, a) && editable <= outside
    requires var e := txn.entries[i]; Spares(a, b, editable + {e.destination, e.afterPath})
    ensures Undoable(txn, outside, b)
  {
    var touched := editable + {txn.entries[i].destination, txn.entries[i].afterPath};
    EntriesApart(txn, txn.entries[i], txn.entries[i]);
    HeldSpared(a, b, touched, txn.journal, Some(BytesOf(txn, Prepared)), outside);
    forall e | e in txn.entries ensures Held(b, e.beforePath, Some(e.before), outside) {
      EntriesApart(txn, e, txn.entries[i]);
      EntriesApart(txn, txn.entries[i], e);
      HeldSpared(a, b, touched, e.beforePath, Some(e.before), outside);
    }
  }

  /** The first `i` destinations went from their before to their after image, and they are the
      candidates; the others are as they were. */
  ghost predicate AppliedExactly(txn: Txn, v: Namespace, w: Namespace, candidates: set<Path>, i: nat)
  {
    forall k :: 0 <= k < |txn.entries| ==>
      var e := txn.entries[k];
      && (e.destination in candidates <==> k < i)
      && (k < i ==> Get(v, e.destination) == Some(e.before) && Get(w, e.destination) == Some(e.after))
      && (k >= i ==> Get(w, e.destination) == Get(v, e.destination))
  }

  /** The undisturbed loop stops at the first destination that does not hold its before image: as a
      conflict if a file is there, as a failure if none is. */
  ghost predicate StoppedAt(txn: Txn, v: Namespace, w: Namespace, r: ApplyResult, candidates: set<Path>, i: nat)
  {
    && i <= |txn.entries| && AppliedExactly(txn, v, w, candidates, i)
    && (r.Applied? <==> i == |txn.entries|)
    && (i < |txn.entries| ==>
          var e := txn.entries[i];
          && Get(v, e.destination) != Some(e.before)
          && r == if e.destination in v then Conflict else Unreadable)
  }

  /** However far the loop got: a destination is as it was, or a candidate that went from its before to
      its after image, and every candidate held its before image. */
  ghost predicate PartlyApplied(txn: Txn, v: Namespace, w: Namespace, candidates: set<Path>)
  {
    forall k :: 0 <= k < |txn.entries| ==>
      && NextMoved(txn.entries[k], v, w, candidates)
      && (txn.entries[k].destination in candidates ==>
            Get(v, txn.entries[k].destination) == Some(txn.entries[k].before))
  }

  /** Some destination does not hold its before image. */
  ghost predicate SomeOff(txn: Txn, v: Namespace)
  {
    exists k :: 0 <= k < |txn.entries| && Get(v, txn.entries[k].destination) != Some(txn.entries[k].before)
  }

  lemma OneMorePartly(txn: Txn, v: Namespace, a: Disk, b: Disk, candidates: set<Path>, known: set<Path>, i: nat)
    requires ValidRoles(txn) && i < |txn.entries| && AppliedExactly(txn, v, Visible(a), known, i)
    requires var e := txn.entries[i];
      Spares(a, b, {e.destination, e.afterPath}) && Moved(e, Visible(a), Visible(b), known, candidates)
    ensures PartlyApplied(txn, v, Visible(b), candidates)
  {
    forall k | 0 <= k < |txn.entries| && k != i
      ensures txn.entries[k].destination !in {txn.entries[i].destination, txn.entries[i].afterPath}
    {
      EntriesApart(txn, txn.entries[k], txn.entries[i]);
    }
  }

  lemma ExactlyIsPartly(txn: Txn, v: Namespace, w: Namespace, candidates: set<Path>, i: nat)
    requires AppliedExactly(txn, v, w, candidates, i)
    ensures PartlyApplied(txn, v, w, candidates)
  {
  }

  lemma OneMoreExactly(txn: Txn, v: Namespace, a: Disk, b: Disk, candidates: set<Path>, i: nat)
    requires ValidRoles(txn) && i < |txn.entries| && AppliedExactly(txn, v, Visible(a), candidates, i)
    requires var e := txn.entries[i];
      && Spares(a, b, {e.destination, e.afterPath}) && Get(Visible(a), e.destination) == Some(e.before)
      && Get(Visible(b), e.destination) == Some(e.after)
    ensures AppliedExactly(txn, v, Visible(b), candidates + {txn.entries[i].destination}, i + 1)
  {
    forall k | 0 <= k < |txn.entries| && k != i
      ensures txn.entries[k].destination !in {txn.entries[i].destination, txn.entries[i].afterPath}
    {
      EntriesApart(txn, txn.entries[k], txn.entries[i]);
    }
  }

  /** Rename every after image in, in order. `candidates` covers every destination this run
      may have renamed over, whatever went wrong. */
  method ApplyEntries(fs: FileSystem, txn: Txn)
    returns (r: ApplyResult, candidates: set<Path>, ghost stopped: nat)
    requires fs.Valid() && ValidRoles(txn) && Keeps(fs.disk, In(Applying, txn, fs.outside))
    requires ToApply(txn, fs.outside, fs.disk, 0) && Undoable(txn, fs.outside, fs.disk)
    modifies fs`disk, fs`faults, fs`edits, fs`replaced
    ensures fs.Valid() && Keeps(fs.disk, In(Applying, txn, fs.outside))
    ensures Grown(old(fs.replaced), fs.replaced, txn, fs.outside)
    ensures forall k :: |old(fs.replaced)| <= k < |fs.replaced| ==> fs.replaced[k].path in candidates
    ensures r.Applied? ==> AppliedUpTo(txn, fs.outside, fs.disk, |txn.entries|)
    ensures Undoable(txn, fs.outside, fs.disk)
    ensures old(fs.Orderly()) && OnlyDocuments(fs.outside, txn.journal) ==>
      && fs.Since(old(fs.Trouble()), r.ApplyCrashed?)
      && PartlyApplied(txn, Visible(old(fs.disk)), Visible(fs.disk), candidates)
      && (r.Conflict? ==> SomeOff(txn, Visible(old(fs.disk))))
      && (old(fs.Trouble()).Ok? || fs.faults != [] ==>
            StoppedAt(txn, Visible(old(fs.disk)), Visible(fs.disk), r, candidates, stopped))
    ensures old(fs.Orderly()) && OnlyDocuments(fs.outside, txn.journal) && r.Applied? ==>
      fs.Met(old(fs.Trouble()), Ok)
    ensures old(fs.edits) == [] ==> fs.edits == []
    ensures old(fs.faults) == [] && OnlyDocuments(fs.outside, txn.journal) ==>
      fs.faults == [] && r in {Applied, Conflict, Unreadable}
  {
    ghost var from := Start(fs.replaced, Visible(fs.disk), fs.Orderly() && OnlyDocuments(fs.outside, txn.journal),
                            fs.faults == [] && OnlyDocuments(fs.outside, txn.journal), fs.edits == [], fs.Trouble());
    r, candidates, stopped := Applied, {}, 0;
    for i := 0 to |txn.entries|
      invariant r.Applied? && stopped == i && Advancing(fs, from, txn, candidates, i)
    {
      r, candidates := ApplyStep(fs, from, txn, i, candidates);
      if !r.Applied? { return; }
      stopped := i + 1;
    }
  }

  /** What the loop started from; `quiet` says that only its own bad step can disturb it, `sure` that
      others may but no step fails. */
  datatype Start = Start(replaced: seq<Replacement>, visible: Namespace, quiet: bool, sure: bool, alone: bool,
                         trouble: Status)

  /** What the loop over the entries maintains. */
  ghost predicate Advancing(fs: FileSystem, from: Start, txn: Txn, candidates: set<Path>, i: nat)
    reads fs
  {
    && Tracked(fs, from, txn, candidates)
    && AppliedUpTo(txn, fs.outside, fs.disk, i) && ToApply(txn, fs.outside, fs.disk, i)
    && (from.quiet ==>
          fs.Met(from.trouble, Ok) && AppliedExactly(txn, from.visible, Visible(fs.disk), candidates, i))
  }

  ghost predicate Tracked(fs: FileSystem, from: Start, txn: Txn, candidates: set<Path>)
    reads fs
  {
    && fs.Valid() && Keeps(fs.disk, In(Applying, txn, fs.outside)) && Undoable(txn, fs.outside, fs.disk)
    && Grown(from.replaced, fs.replaced, txn, fs.outside)
    && (from.quiet || from.sure ==> OnlyDocuments(fs.outside, txn.journal))
    && (from.alone ==> fs.edits == []) && (from.quiet ==> from.alone) && (from.sure ==> fs.faults == [])
    && forall k :: |from.replaced| <= k < |fs.replaced| ==> fs.replaced[k].path in candidates
  }

  /** What holds where it stops at the i-th entry. */
  ghost predicate Stopped(fs: FileSystem, from: Start, txn: Txn, r: ApplyResult, candidates: set<Path>, i: nat)
    reads fs
  {
    && Tracked(fs, from, txn, candidates) && (from.sure ==> r in {Applied, Conflict, Unreadable})
    && (from.quiet ==>
          && fs.Since(from.trouble, r.ApplyCrashed?)
          && PartlyApplied(txn, from.visible, Visible(fs.disk), candidates)
          && (r.Conflict? ==> SomeOff(txn, from.visible))
          && (from.trouble.Ok? || fs.faults != [] ==>
                StoppedAt(txn, from.visible, Visible(fs.disk), r, candidates, i)))
  }

  /** Apply the i-th entry, or stop at it. */
  method ApplyStep(fs: FileSystem, ghost from: Start, txn: Txn, i: nat, candidates: set<Path>)
    returns (r: ApplyResult, candidates': set<Path>)
    requires ValidRoles(txn) && i < |txn.entries| && Advancing(fs, from, txn, candidates, i)
    modifies fs`disk, fs`faults, fs`edits, fs`replaced
    ensures if r.Applied? then Advancing(fs, from, txn, candidates', i + 1)
            else Stopped(fs, from, txn, r, candidates', i)
  {
    ghost var here, log, editable := fs.disk, fs.replaced, fs.Editable();
    r, candidates' := ApplyNext(fs, txn, i, candidates);
    GrownTwice(from.replaced, log, fs.replaced, txn, fs.outside);
    StillUndoable(txn, fs.outside, here, fs.disk, i, editable);
    if from.quiet {
      QuietStep(txn, fs.outside, from.visible, here, fs.disk, candidates, candidates', i, r);
    }
    if r.Applied? {
      OneMoreApplied(txn, fs.outside, here, fs.disk, i, editable);
    }
  }

  /** Where only the bad step can disturb it, one step moves one destination or none. */
  lemma QuietStep(txn: Txn, outside: set<Path>, v: Namespace, a: Disk, b: Disk, known: set<Path>,
                  candidates: set<Path>, i: nat, r: ApplyResult)
    requires ValidRoles(txn) && i < |txn.entries| && AppliedExactly(txn, v, Visible(a), known, i)
    requires var e := txn.entries[i];
      Spares(a, b, {e.destination, e.afterPath}) && Moved(e, Visible(a), Visible(b), known, candidates)
    requires r.Applied? ==> candidates == known + {txn.entries[i].destination}
    requires r.Applied? ==> Get(Visible(b), txn.entries[i].destination) == Some(txn.entries[i].after)
    requires r.Conflict? ==> Get(Visible(a), txn.entries[i].destination) != Some(txn.entries[i].before)
    ensures r.Conflict? ==> SomeOff(txn, v)
    ensures PartlyApplied(txn, v, Visible(b), candidates)
    ensures r.Applied? ==> AppliedExactly(txn, v, Visible(b), candidates, i + 1)
    ensures (r in {Conflict, Unreadable} && candidates == known && Decides(txn.entries[i], Visible(a), r)) ==>
      StoppedAt(txn, v, Visible(b), r, candidates, i)
  {
    OneMorePartly(txn, v, a, b, candidates, known, i);
    if r.Applied? {
      OneMoreExactly(txn, v, a, b, known, i);
    }
    forall k | 0 <= k < |txn.entries| && k != i
      ensures txn.entries[k].destination !in {txn.entries[i].destination, txn.entries[i].afterPath}
    {
      EntriesApart(txn, txn.entries[k], txn.entries[i]);
    }
  }

  // ---- aborting ----------------------------------------------------------------------

  lemma {:induction false} UntouchedIsNoCandidate(entries: seq<Entry>, states: seq<DestinationState>,
                                                  candidates: Candidates, i: nat)
    requires |states| == |entries|
    ensures var o := Tally(entries, states, candidates, i);
      && (forall p :: p in o.untouched ==> !IsCandidate(candidates, p))
      && (forall p :: p in o.unresolved ==> IsCandidate(candidates, p))
    decreases |entries| - i
  {
    if i < |entries| {
      UntouchedIsNoCandidate(entries, states, candidates, i + 1);
    }
  }

  /** Roll a prepared transaction back after a failure. It is complete, and its journal gone,
      unless a destination this run may have renamed over now holds something else. */
  method AbortPrepared(fs: FileSystem, txn: Txn, candidates: set<Path>, authenticateAll: bool,
                       ghost since: nat)
    returns (s: Status, complete: bool, ghost outcome: Outcome)
    requires fs.Valid() && ValidRoles(txn) && txn.journal.name.JournalFile?
    requires Keeps(fs.disk, In(Applying, txn, fs.outside))
    requires forall k :: since <= k < |fs.replaced| ==>
      fs.replaced[k].path in candidates || fs.replaced[k].path == txn.journal
    modifies fs`disk, fs`faults, fs`edits, fs`replaced
    ensures fs.Valid() && Keeps(fs.disk, In(Rolling, txn, fs.outside)) && !s.Exists?
    ensures Grown(old(fs.replaced), fs.replaced, txn, fs.outside)
    ensures complete ==> s.Ok? && Finished(fs.disk, txn, Prepared, fs.outside)
    ensures s.Ok? && !complete && txn.journal !in fs.outside ==>
      exists e :: e in txn.entries && e.destination in fs.outside && e.destination in candidates
    ensures s.Ok? ==> forall p :: p in outcome.untouched ==> p !in candidates
    ensures s.Ok? ==> forall p :: p in outcome.unresolved ==> p in candidates
    // undisturbed, every after image is put back, and it is complete exactly if no candidate is foreign
    ensures s.Ok? && old(fs.edits) == [] ==>
      Undone(txn, Visible(old(fs.disk)), Visible(fs.disk), candidates, complete)
    ensures old(Unhindered(fs, txn)) ==>
      && fs.Survived(old(fs.Trouble()), s)
      && (s.Ok? && !complete ==> Get(Visible(fs.disk), txn.journal) == Some(BytesOf(txn, Prepared)))
    ensures s.Ok? && txn.journal !in fs.outside ==> AllBefore(txn, fs.outside, Visible(fs.disk))
    ensures old(fs.edits) == [] ==> fs.edits == []
    // stages are authenticated first if they have to be; if not, a wrong one stops only the cleanup
    ensures (&& !authenticateAll && old(fs.Calm()) && AllCovered(txn, Visible(old(fs.disk)))
             && !AllAuthentic(txn, Visible(old(fs.disk))))
      ==> PutBack(txn, Visible(old(fs.disk)), Visible(fs.disk))
    ensures authenticateAll && !AllAuthentic(txn, Visible(old(fs.disk))) ==>
      !s.Ok? && fs.disk == old(fs.disk)
  {
    Weaken(Applying, Rolling, txn, fs.outside, fs.disk);
    complete, outcome := false, Outcome([], [], [], []);
    if authenticateAll {
      s := AuthenticateAll(fs, StagedArtifacts(txn.entries));
      if !s.Ok? { return; }
    }
    var found, states;
    s, found, states := RollbackPrepared(fs, txn, Some(candidates), Rolling);
    if !s.Ok? { return; }
    complete, outcome := found.unresolved == [], found;
    if old(fs.edits) == [] {
      UnresolvedAreForeign(txn.entries, Visible(old(fs.disk)), candidates, found);
    }
    UntouchedIsNoCandidate(txn.entries, states, Some(candidates), 0);
    if !complete && txn.journal !in fs.outside {
      UnresolvedWitness(txn.entries, states, Some(candidates), 0);
    }
  }

  /** Every after image was put back, and `complete` says that no candidate holds neither image. */
  ghost predicate Undone(txn: Txn, v: Namespace, now: Namespace, candidates: set<Path>, complete: bool)
  {
    && PutBack(txn, v, now)
    && (complete <==> forall e :: e in txn.entries && e.destination in candidates ==> !Foreign(v, e))
  }

  lemma UnresolvedAreForeign(entries: seq<Entry>, v: Namespace, candidates: set<Path>, o: Outcome)
    requires Reported(entries, v, Some(candidates), o)
    ensures o.unresolved == [] <==>
      (forall e :: e in entries && e.destination in candidates ==> !Foreign(v, e))
  {
    if o.unresolved != [] {
      assert o.unresolved[0] in o.unresolved;
    }
    forall e | e in entries && e.destination in candidates && Foreign(v, e) ensures o.unresolved != [] {
      assert e.destination in o.unresolved;
    }
  }

  lemma {:induction false} UnresolvedWitness(entries: seq<Entry>, states: seq<DestinationState>,
                                             candidates: Candidates, i: nat)
    requires |states| == |entries| && Tally(entries, states, candidates, i).unresolved != []
    ensures exists k :: i <= k < |entries| && states[k] == Other
                     && IsCandidate(candidates, entries[k].destination)
    decreases |entries| - i
  {
    if i < |entries| && !(states[i] == Other && IsCandidate(candidates, entries[i].destination)) {
      UnresolvedWitness(entries, states, candidates, i + 1);
    }
  }

  // ---- the marker --------------------------------------------------------------------

  /** After a failed marker update: make the journal durably the prepared one again, or stop. */
  method ResetPreparedJournal(fs: FileSystem, txn: Txn) returns (s: Status)
    requires fs.Valid() && ValidRoles(txn) && txn.journal.name.JournalFile?
    requires Keeps(fs.disk, In(Marking, txn, fs.outside))
    requires Get(Visible(fs.disk), txn.journal) == Some(BytesOf(txn, Prepared)) ==>
      Held(fs.disk, txn.journal, Some(BytesOf(txn, Prepared)), fs.outside)
    modifies fs`disk, fs`faults, fs`replaced
    ensures Keeps(fs.disk, In(Marking, txn, fs.outside))
    ensures s.Ok? ==> Held(fs.disk, txn.journal, Some(BytesOf(txn, Prepared)), fs.outside)
    // a reset of the committed marker whose last flush fails leaves either marker to a crash
    ensures (&& Head(old(fs.faults)).Pass? && LastFlushFails(Rest(old(fs.faults)))
             && Get(Visible(old(fs.disk)), txn.journal) == Some(BytesOf(txn, Committed)))
      ==> && s.Failed? && Get(Visible(fs.disk), txn.journal) == Some(BytesOf(txn, Prepared))
          && exists m :: m in Images(fs.disk) && Get(m, txn.journal) == Some(BytesOf(txn, Committed))
    // it succeeds exactly where the journal is gone or is one of the two, unless a step goes wrong
    ensures old(fs.Steady()) ==>
      && fs.Since(old(fs.Trouble()), s.Crashed?)
      && (old(fs.Trouble()).Ok? || fs.faults != [] ==>
            (s.Ok? <==> Get(Visible(old(fs.disk)), txn.journal)
                        in {None, Some(BytesOf(txn, Prepared)), Some(BytesOf(txn, Committed))}))
    ensures Get(Visible(old(fs.disk)), txn.journal)
      in {None, Some(BytesOf(txn, Prepared)), Some(BytesOf(txn, Committed))}
      || (!s.Ok? && fs.disk == old(fs.disk))
    ensures SparesAllButJournal(old(fs.disk), fs.disk, txn.journal)
    ensures old(fs.replaced) <= fs.replaced
    ensures forall k :: |old(fs.replaced)| <= k < |fs.replaced| ==> fs.replaced[k].path == txn.journal
  {
    ghost var claim := In(Marking, txn, fs.outside);
    ValidRolesHaveProperNames(txn);
    HelpersIgnored(Marking, txn, fs.outside, fs.disk);
    var content;
    ghost var stage;
    s, content := fs.Read(txn.journal);
    if !s.Ok? { return; }
    if content == Some(BytesOf(txn, Prepared)) { return; }
    if content.None? {
      JournalStepAccepted(Marking, txn, fs.outside, Put(txn.journal, BytesOf(txn, Prepared)), Prepared);
      s, stage := fs.AtomicCreateBytes(txn.journal, BytesOf(txn, Prepared), claim);
    } else if content == Some(BytesOf(txn, Committed)) {
      MarkerMoves(txn, fs.outside, fs.disk, Prepared);
      s, stage := fs.AtomicReplaceBytes(txn.journal, BytesOf(txn, Prepared), claim);
    } else {
      s := Failed;
    }
    if !s.Ok? { return; }
    var crashed, status := ExactJournalStatus(fs, txn.journal, BytesOf(txn, Prepared));
    s := if crashed then Crashed else if status.Exact? then Ok else Failed;
  }

  /** Either marker may be renamed over the journal while marking, from any name a helper draws. */
  lemma MarkerMoves(txn: Txn, outside: set<Path>, d: Disk, state: JournalState)
    requires ProperNames(txn) && Keeps(d, In(Marking, txn, outside))
    ensures forall h :: Drawable(txn.journal.dir, JournalStage(0), h) && h !in Visible(d) ==>
      && Ignores(In(Marking, txn, outside), h)
      && Accepts(In(Marking, txn, outside), Move(h, txn.journal, BytesOf(txn, state)))
  {
    HelpersIgnored(Marking, txn, outside, d);
    forall h | Drawable(txn.journal.dir, JournalStage(0), h) && h !in Visible(d)
      ensures Accepts(In(Marking, txn, outside), Move(h, txn.journal, BytesOf(txn, state)))
    {
      JournalStepAccepted(Marking, txn, outside, Move(h, txn.journal, BytesOf(txn, state)), state);
    }
  }

  /** What the journal being durably one marker means for the phase. */
  lemma Marked(txn: Txn, outside: set<Path>, d: Disk, state: JournalState)
    requires Keeps(d, In(Marking, txn, outside))
    requires Held(d, txn.journal, Some(BytesOf(txn, state)), outside)
    ensures Keeps(d, In(if state.Prepared? then Applying else Clearing, txn, outside))
  {
    if txn.journal !in outside {
      MarkerDecides(txn, outside, d);
    } else {
      var next := if state.Prepared? then Applying else Clearing;
      assert forall m :: m in Images(d) ==> PhaseAt(next, txn, outside, m, Visible(d));
    }
  }

  /** Publish the committed marker. */
  method MarkCommitted(fs: FileSystem, txn: Txn) returns (s: Status)
    requires fs.Valid() && ValidRoles(txn) && txn.journal.name.JournalFile?
    requires Keeps(fs.disk, In(Marking, txn, fs.outside))
    requires Held(fs.disk, txn.journal, Some(BytesOf(txn, Prepared)), fs.outside)
    modifies fs`disk, fs`faults, fs`replaced
    ensures Keeps(fs.disk, In(Marking, txn, fs.outside))
    ensures s.Ok? ==>
      && Get(Visible(fs.disk), txn.journal) == Some(BytesOf(txn, Committed))
      && Keeps(fs.disk, In(Clearing, txn, fs.outside))
    ensures Get(Visible(fs.disk), txn.journal) == Some(BytesOf(txn, Prepared)) ==>
      Held(fs.disk, txn.journal, Some(BytesOf(txn, Prepared)), fs.outside)
    ensures old(fs.replaced) <= fs.replaced
    ensures forall k :: |old(fs.replaced)| <= k < |fs.replaced| ==> fs.replaced[k].path == txn.journal
    ensures LastFlushFails(old(fs.faults)) ==>
      && s.Failed? && fs.faults == Later(old(fs.faults), 7)
      && Get(Visible(fs.disk), txn.journal) == Some(BytesOf(txn, Committed))
    ensures SparesAllButJournal(old(fs.disk), fs.disk, txn.journal)
    ensures old(fs.Steady()) ==> fs.Met(old(fs.Trouble()), s)
  {
    ValidRolesHaveProperNames(txn);
    MarkerMoves(txn, fs.outside, fs.disk, Committed);
    ghost var start := fs.disk;
    ghost var stage;
    s, stage := fs.AtomicReplaceBytes(txn.journal, BytesOf(txn, Committed), In(Marking, txn, fs.outside));
    if s.Ok? {
      Marked(txn, fs.outside, fs.disk, Committed);
    }
    if Get(Visible(fs.disk), txn.journal) == Some(BytesOf(txn, Prepared)) {
      HeldSpared(start, fs.disk, {stage}, txn.journal, Some(BytesOf(txn, Prepared)), fs.outside);
    }
  }

  /** A failed marker: document rollback only once the prepared journal is durably back. */
  method AbortFailedMarker(fs: FileSystem, txn: Txn, candidates: set<Path>, ghost since: nat)
    returns (s: Status, complete: bool, phase: Phase)
    requires fs.Valid() && ValidRoles(txn) && txn.journal.name.JournalFile?
    requires Keeps(fs.disk, In(Marking, txn, fs.outside))
    requires Get(Visible(fs.disk), txn.journal) == Some(BytesOf(txn, Prepared)) ==>
      Held(fs.disk, txn.journal, Some(BytesOf(txn, Prepared)), fs.outside)
    requires since <= |fs.replaced| && forall k :: since <= k < |fs.replaced| ==>
      fs.replaced[k].path in candidates || fs.replaced[k].path == txn.journal
    modifies fs`disk, fs`faults, fs`edits, fs`replaced
    ensures fs.Valid() && phase in {Marking, Rolling} && Keeps(fs.disk, In(phase, txn, fs.outside))
    ensures Grown(old(fs.replaced), fs.replaced, txn, fs.outside)
    ensures complete ==> s.Ok? && phase.Rolling? && Finished(fs.disk, txn, Prepared, fs.outside)
    ensures phase.Marking? ==> !complete && forall k :: |old(fs.replaced)| <= k < |fs.replaced| ==>
      fs.replaced[k].path == txn.journal
    // a stage that is not what was recorded stops the rollback before any document
    ensures !AllAuthentic(txn, Visible(old(fs.disk))) ==>
      !complete && SparesAllButJournal(old(fs.disk), fs.disk, txn.journal)
    // every destination is put back, completely unless a candidate is foreign or a step goes wrong
    ensures (&& old(fs.Orderly()) && OnlyDocuments(fs.outside, txn.journal)
             && old(BeforesHeld(txn, fs.outside, fs.disk))) ==>
      && fs.Since(old(fs.Trouble()), s.Crashed?)
      && (old(fs.Trouble()).Ok? || fs.faults != [] ==> s.Ok?)
      && (s.Ok? ==> phase.Rolling? && Undone(txn, Visible(old(fs.disk)), Visible(fs.disk), candidates, complete))
    ensures old(fs.edits) == [] ==> fs.edits == []
  {
    ghost var start := fs.disk;
    MarkedIsVisible(txn, fs.outside, start);
    s := ResetPreparedJournal(fs, txn);
    complete, phase := false, Marking;
    ghost var log := fs.replaced;
    OnlyTheJournal(txn, fs.outside, old(fs.replaced), log);
    if !s.Ok? { return; }
    Marked(txn, fs.outside, fs.disk, Prepared);
    SameStages(txn, start, fs.disk);
    ResetIsReady(txn, fs.outside, start, fs.disk);
    ghost var outcome;
    ghost var mid := fs.disk;
    s, complete, outcome := AbortPrepared(fs, txn, candidates, true, since);
    GrownTwice(old(fs.replaced), log, fs.replaced, txn, fs.outside);
    phase := Rolling;
    if SameEntries(txn, Visible(start), Visible(mid)) {
      UndoneSince(txn, Visible(start), Visible(mid), Visible(fs.disk), candidates, complete);
    }
  }

  /** While marking, the journal is there and every destination at its after image. */
  lemma MarkedIsVisible(txn: Txn, outside: set<Path>, d: Disk)
    requires Keeps(d, In(Marking, txn, outside))
    ensures txn.journal !in outside ==>
      Get(Visible(d), txn.journal) in {Some(BytesOf(txn, Prepared)), Some(BytesOf(txn, Committed))}
    ensures txn.journal !in outside ==> forall e :: e in txn.entries ==> AfterAt(e, outside, Visible(d))
  {
    KeepsVisible(d, In(Marking, txn, outside));
    assert PhaseAt(Marking, txn, outside, Visible(d), Visible(d));
    forall e | e in txn.entries && txn.journal !in outside ensures AfterAt(e, outside, Visible(d)) {
      assert EntryAt(Marking, txn.journal, e, outside, Visible(d), Visible(d));
    }
  }

  /** Resetting the journal changes no document and no stage of an image. */
  lemma ResetIsReady(txn: Txn, outside: set<Path>, a: Disk, b: Disk)
    requires ValidRoles(txn) && txn.journal.name.JournalFile?
    requires Keeps(a, In(Marking, txn, outside)) && SparesAllButJournal(a, b, txn.journal)
    requires Keeps(b, In(Applying, txn, outside))
    ensures OnlyDocuments(outside, txn.journal) && BeforesHeld(txn, outside, a) ==>
      Ready(txn, Visible(b)) && SameEntries(txn, Visible(a), Visible(b))
  {
    if OnlyDocuments(outside, txn.journal) && BeforesHeld(txn, outside, a) {
      MarkedIsVisible(txn, outside, a);
      forall e | e in txn.entries
        ensures Held(b, e.beforePath, Some(e.before), outside)
        ensures Get(Visible(b), e.destination) == Get(Visible(a), e.destination)
      {
        EntriesApart(txn, e, e);
        assert AfterAt(e, outside, Visible(a)) && Held(a, e.beforePath, Some(e.before), outside);
      }
      ReadyToAbort(txn, outside, b);
    }
  }

  lemma SameStages(txn: Txn, a: Disk, b: Disk)
    requires ValidRoles(txn) && SparesAllButJournal(a, b, txn.journal)
    ensures AllAuthentic(txn, Visible(b)) ==> AllAuthentic(txn, Visible(a))
  {
    if AllAuthentic(txn, Visible(b)) {
      var staged := StagedArtifacts(txn.entries);
      forall s | s in staged ensures Authentic(Visible(a), s) {
        var k :| 0 <= k < |staged| && staged[k] == s;
        assert k == 2 * (k / 2) || k == 2 * (k / 2) + 1;
        EntriesApart(txn, txn.entries[k / 2], txn.entries[k / 2]);
        assert Authentic(Visible(b), s);
      }
    }
  }

  ghost predicate SameEntries(txn: Txn, v: Namespace, w: Namespace)
  {
    forall e :: e in txn.entries ==> Get(w, e.destination) == Get(v, e.destination)
  }

  lemma UndoneSince(txn: Txn, v: Namespace, w: Namespace, now: Namespace, candidates: set<Path>, complete: bool)
    requires SameEntries(txn, v, w)
    ensures Undone(txn, w, now, candidates, complete) ==> Undone(txn, v, now, candidates, complete)
  {
    assert forall e :: e in txn.entries ==> (Foreign(v, e) <==> Foreign(w, e));
  }

  lemma OnlyTheJournal(txn: Txn, outside: set<Path>, a: seq<Replacement>, b: seq<Replacement>)
    requires ValidRoles(txn) && a <= b
    requires forall k :: |a| <= k < |b| ==> b[k].path == txn.journal
    ensures Grown(a, b, txn, outside)
  {
    forall k | |a| <= k < |b| ensures Guarded(b[k], txn, outside) {
      forall e | e in txn.entries ensures b[k].path != e.destination {
        EntriesApart(txn, e, e);
      }
    }
  }

  // ---- the whole commit --------------------------------------------------------------

  /** How a commit ends: reconciled; refused as a conflict, or failed, with every file back
      as it was; stopped with something left for recovery; or crashed. */
  datatype CommitResult = Reconciled | ConflictRolledBack | FailureRolledBack | Incomplete
                        | InProgress | Interrupted

  ghost predicate RolledBack(r: CommitResult) {
    r.ConflictRolledBack? || r.FailureRolledBack?
  }

  /** Every destination holds its before image, or every one its after image. */
  ghost predicate AllHold(rewrites: seq<Rewrite>, v: Namespace, role: Role)
  {
    forall w :: w in rewrites ==> Get(v, w.destination) == Some(if role.Before? then w.before else w.after)
  }

  /** The i-th rewrite is the first whose destination does not hold its before image. */
  ghost predicate FirstMismatch(rewrites: seq<Rewrite>, v: Namespace, i: nat)
  {
    && i < |rewrites| && Get(v, rewrites[i].destination) != Some(rewrites[i].before)
    && forall k :: 0 <= k < i ==> Get(v, rewrites[k].destination) == Some(rewrites[k].before)
  }

  /** A commit that found the namespace `v` ends reconciled, with every destination at its after image,
      if and only if each held its before image. Otherwise it backs out: as a conflict if the first
      destination that did not is there, as a failure if it is gone. No destination is then left at its
      after image, and every other is as it was found. */
  ghost predicate EndsAsFound(rewrites: seq<Rewrite>, v: Namespace, r: CommitResult, now: Namespace)
  {
    && (r.Reconciled? <==> AllHold(rewrites, v, Before))
    && (r.Reconciled? ==> AllHold(rewrites, now, After))
    && (!r.Reconciled? ==> BacksOutFor(rewrites, v, r) && BackAsFound(rewrites, v, now))
  }

  /** The first destination that did not hold its before image gives the reason. */
  ghost predicate BacksOutFor(rewrites: seq<Rewrite>, v: Namespace, r: CommitResult)
  {
    exists i: nat :: FirstMismatch(rewrites, v, i)
      && (r == if rewrites[i].destination in v then ConflictRolledBack else FailureRolledBack)
  }

  /** No destination is left at its after image, and every other is as it was found. */
  ghost predicate BackAsFound(rewrites: seq<Rewrite>, v: Namespace, now: Namespace)
  {
    forall w :: w in rewrites ==>
      Get(now, w.destination)
      == if Get(v, w.destination) == Some(w.after) then Some(w.before) else Get(v, w.destination)
  }

  /** What a commit whose files were all at their before images may come to if one step fails: every
      file is at its after image, with at most the committed journal still to be cleaned up; or every
      file is back, or still, at its before image. */
  ghost predicate OneSided(rewrites: seq<Rewrite>, journal: Path, r: CommitResult, left: Left, now: Namespace)
  {
    match r
    case Reconciled => AllHold(rewrites, now, After)
    case FailureRolledBack => AllHold(rewrites, now, Before)
    case Incomplete =>
      if left.During? && left.phase.Clearing?
      then AllHold(rewrites, now, After) && Get(now, journal) == Some(BytesOf(left.txn, Committed))
      else AllHold(rewrites, now, Before) && (left.During? ==> left.phase.Staging?)
    case _ => false
  }

  ghost predicate AllAtBefore(rewrites: seq<Rewrite>, outside: set<Path>, v: Namespace)
  {
    forall r :: r in rewrites && r.destination !in outside ==> Get(v, r.destination) == Some(r.before)
  }

  ghost predicate AllAtAfter(rewrites: seq<Rewrite>, outside: set<Path>, v: Namespace)
  {
    forall r :: r in rewrites && r.destination !in outside ==> Get(v, r.destination) == Some(r.after)
  }

  /** How a commit ends if no step fails, whatever others make of their documents meanwhile: reconciled
      or backed out; or backed out but for a destination of theirs that it had replaced and that holds
      neither image now, and then the journal is still there. */
  ghost predicate Concluded(rewrites: seq<Rewrite>, journal: Path, outside: set<Path>, r: CommitResult, left: Left,
                            now: Namespace)
  {
    match r
    case Reconciled => AllAtAfter(rewrites, outside, now)
    case ConflictRolledBack => AllAtBefore(rewrites, outside, now)
    case FailureRolledBack => AllAtBefore(rewrites, outside, now)
    case Incomplete =>
      && left.During? && left.phase.Rolling? && AllAtBefore(rewrites, outside, now)
      && Get(now, journal) == Some(BytesOf(left.txn, Prepared))
      && exists w :: w in rewrites && w.destination in outside
    case _ => false
  }

  /** What the entries come to is what the rewrites come to. */
  lemma AllBack(txn: Txn, rewrites: seq<Rewrite>, outside: set<Path>, v: Namespace)
    requires Corresponds(txn.entries, rewrites) && AllBefore(txn, outside, v)
    ensures AllAtBefore(rewrites, outside, v)
  {
    forall r | r in rewrites && r.destination !in outside ensures Get(v, r.destination) == Some(r.before) {
      var k :| 0 <= k < |rewrites| && rewrites[k] == r;
      assert txn.entries[k] in txn.entries && BeforeAt(txn.entries[k], outside, v);
    }
  }

  /** A commit that reports what became of it has concluded. */
  lemma FinishedConcludes(txn: Txn, rewrites: seq<Rewrite>, outside: set<Path>, d: Disk, r: CommitResult, left: Left)
    requires Corresponds(txn.entries, rewrites) && txn.journal !in outside
    requires r.Reconciled? || RolledBack(r)
    requires Finished(d, txn, if r.Reconciled? then Committed else Prepared, outside)
    ensures Concluded(rewrites, txn.journal, outside, r, left, Visible(d))
  {
    var state := if r.Reconciled? then Committed else Prepared;
    forall w | w in rewrites && w.destination !in outside
      ensures Get(Visible(d), w.destination) == Some(if r.Reconciled? then w.after else w.before)
    {
      var k :| 0 <= k < |rewrites| && rewrites[k] == w;
      assert txn.entries[k] in txn.entries && Done(d, txn.entries[k], state, outside);
    }
  }

  /** So has one whose rollback ran to its end, even if it could not put back what somebody changed. */
  lemma BackedOutConcludes(txn: Txn, rewrites: seq<Rewrite>, outside: set<Path>, d: Disk, complete: bool,
                           candidates: set<Path>, r: CommitResult)
    requires Corresponds(txn.entries, rewrites) && txn.journal !in outside && AllBefore(txn, outside, Visible(d))
    requires complete ==> Finished(d, txn, Prepared, outside) && RolledBack(r)
    requires !complete ==> r.Incomplete? && Get(Visible(d), txn.journal) == Some(BytesOf(txn, Prepared))
    requires !complete ==> exists e :: e in txn.entries && e.destination in outside && e.destination in candidates
    ensures Concluded(rewrites, txn.journal, outside, r, During(Rolling, txn), Visible(d))
  {
    AllBack(txn, rewrites, outside, Visible(d));
    if !complete {
      var e :| e in txn.entries && e.destination in outside && e.destination in candidates;
      var k :| 0 <= k < |txn.entries| && txn.entries[k] == e;
      assert rewrites[k] in rewrites;
    }
  }

  /** Commit exact-byte rewrites as one durable transaction, holding the lease. */
  method CommitRewritesLocked(fs: FileSystem, journal: Path, rewrites: seq<Rewrite>)
    returns (r: CommitResult, left: Left, ghost txn: Txn)
    requires fs.Valid() && journal.name.JournalFile?
    requires journal in Visible(fs.disk) || Keeps(fs.disk, Idle(journal, rewrites, fs.outside))
    modifies fs`disk, fs`faults, fs`edits, fs`replaced
    ensures fs.Valid() && Stands(left, journal, rewrites, fs.outside, fs.disk)
    // no destination is renamed over before the journal is durably published, and from then on
    // the journal goes last
    ensures left.During? && left.phase.Staging? ==> fs.replaced == old(fs.replaced)
    ensures LastOrNothing(left, fs.outside, fs.disk)
    ensures Grown(old(fs.replaced), fs.replaced, txn, fs.outside)
    ensures if left.During? then txn == left.txn else fs.replaced == old(fs.replaced)
    ensures r.Reconciled? ==> left == During(Clearing, txn) && Finished(fs.disk, txn, Committed, fs.outside)
    ensures RolledBack(r) ==> left == During(Rolling, txn) && Finished(fs.disk, txn, Prepared, fs.outside)
    // a journal that is already there refuses the commit, which then changes nothing
    ensures left.Refused? <==> journal in Visible(old(fs.disk))
    ensures left.Refused? ==> fs.disk == old(fs.disk) && (r.Incomplete? || r.Interrupted?)
    ensures !r.InProgress?
    // undisturbed, what the destinations hold decides how it ends
    ensures (&& old(fs.Calm()) && OnlyDocuments(fs.outside, journal) && ProperRewrites(journal, rewrites)
             && journal !in Visible(old(fs.disk)))
      ==> fs.Calm() && EndsAsFound(rewrites, Visible(old(fs.disk)), r, Visible(fs.disk))
    ensures (&& old(fs.Calm()) && fs.outside == {} && ProperRewrites(journal, rewrites)
             && journal !in Visible(old(fs.disk))) ==> r.Reconciled? && fs.Calm()
    // one step that fails leaves every destination on one side; one that never returns interrupts it
    ensures (&& old(fs.Orderly()) && OnlyDocuments(fs.outside, journal) && ProperRewrites(journal, rewrites)
             && journal !in Visible(old(fs.disk)) && AllHold(rewrites, Visible(old(fs.disk)), Before))
      ==> && fs.Since(old(fs.Trouble()), r.Interrupted?)
          && (!r.Interrupted? ==> OneSided(rewrites, journal, r, left, Visible(fs.disk)))
          && (old(fs.Trouble()).Ok? || fs.faults != [] ==> r.Reconciled?)
    // and if none fails it ends this way whatever others do to documents meanwhile
    ensures (&& old(fs.faults) == [] && OnlyDocuments(fs.outside, journal) && ProperRewrites(journal, rewrites)
             && journal !in Visible(old(fs.disk)))
      ==> fs.faults == [] && Concluded(rewrites, journal, fs.outside, r, left, Visible(fs.disk))
  {
    ghost var v, start := Visible(fs.disk), fs.replaced;
    if fs.outside == {} { IdleIsBefore(journal, rewrites, fs.disk); }
    var s, prepared;
    s, prepared, left := PrepareTransaction(fs, journal, rewrites);
    txn := prepared;
    StandsLast(left, journal, rewrites, fs.outside, fs.disk);
    ghost var w := Visible(fs.disk);
    HoldsSame(rewrites, v, w);
    if !s.Ok? { return if s.Crashed? then Interrupted else Incomplete, left, txn; }
    r, left := CommitPrepared(fs, prepared, rewrites);
    StandsLast(left, journal, rewrites, fs.outside, fs.disk);
    EndsAsPublished(rewrites, v, w, r, Visible(fs.disk));
  }

  lemma IdleIsBefore(journal: Path, rewrites: seq<Rewrite>, d: Disk)
    ensures Keeps(d, Idle(journal, rewrites, {})) ==> AllHold(rewrites, Visible(d), Before)
  {
    if Keeps(d, Idle(journal, rewrites, {})) {
      KeepsVisible(d, Idle(journal, rewrites, {}));
      assert IdleAt(journal, rewrites, {}, Visible(d));
    }
  }

  lemma HoldsSame(rewrites: seq<Rewrite>, v: Namespace, w: Namespace)
    ensures SameDestinations(rewrites, v, w, {}) ==> (AllHold(rewrites, v, Before) <==> AllHold(rewrites, w, Before))
  {
    if SameDestinations(rewrites, v, w, {}) {
      forall r | r in rewrites ensures Get(w, r.destination) == Get(v, r.destination) {
      }
    }
  }

  /** Preparing changes no destination, so how it ends is decided by what was found. */
  lemma EndsAsPublished(rewrites: seq<Rewrite>, v: Namespace, w: Namespace, r: CommitResult, now: Namespace)
    ensures SameDestinations(rewrites, v, w, {}) && EndsAsFound(rewrites, w, r, now) ==>
      EndsAsFound(rewrites, v, r, now)
  {
    if SameDestinations(rewrites, v, w, {}) && EndsAsFound(rewrites, w, r, now) {
      forall k | 0 <= k < |rewrites| ensures Get(w, rewrites[k].destination) == Get(v, rewrites[k].destination) {
        assert rewrites[k] in rewrites;
      }
      HoldsSame(rewrites, v, w);
      if BacksOutFor(rewrites, w, r) {
        var i: nat :| FirstMismatch(rewrites, w, i)
          && (r == if rewrites[i].destination in w then ConflictRolledBack else FailureRolledBack);
        assert FirstMismatch(rewrites, v, i);
      }
    }
  }

  /** With the journal durably published: apply, then mark and clean up, or back out. */
  method CommitPrepared(fs: FileSystem, txn: Txn, rewrites: seq<Rewrite>) returns (r: CommitResult, left: Left)
    requires fs.Valid() && ValidRoles(txn) && txn.journal.name.JournalFile?
    requires Corresponds(txn.entries, rewrites) && Keeps(fs.disk, In(Applying, txn, fs.outside))
    requires ToApply(txn, fs.outside, fs.disk, 0) && Undoable(txn, fs.outside, fs.disk)
    modifies fs`disk, fs`faults, fs`edits, fs`replaced
    ensures fs.Valid() && left.During? && left.txn == txn && !left.phase.Staging?
    ensures Stands(left, txn.journal, rewrites, fs.outside, fs.disk)
    ensures Grown(old(fs.replaced), fs.replaced, txn, fs.outside)
    ensures r.Reconciled? ==> left.phase.Clearing? && Finished(fs.disk, txn, Committed, fs.outside)
    ensures RolledBack(r) ==> left.phase.Rolling? && Finished(fs.disk, txn, Prepared, fs.outside)
    ensures !r.InProgress?
    ensures old(fs.Calm()) && OnlyDocuments(fs.outside, txn.journal) ==>
      fs.Calm() && EndsAsFound(rewrites, Visible(old(fs.disk)), r, Visible(fs.disk))
    ensures (&& old(fs.Orderly()) && OnlyDocuments(fs.outside, txn.journal)
             && AllHold(rewrites, Visible(old(fs.disk)), Before))
      ==> && fs.Since(old(fs.Trouble()), r.Interrupted?)
          && (!r.Interrupted? ==> OneSided(rewrites, txn.journal, r, left, Visible(fs.disk)))
          && (old(fs.Trouble()).Ok? || fs.faults != [] ==> r.Reconciled?)
    ensures old(fs.faults) == [] && OnlyDocuments(fs.outside, txn.journal) ==>
      fs.faults == [] && Concluded(rewrites, txn.journal, fs.outside, r, left, Visible(fs.disk))
  {
    ValidRolesHaveProperNames(txn);
    ghost var v, start, since := Visible(fs.disk), fs.replaced, |fs.replaced|;
    var applied, candidates;
    ghost var stopped;
    applied, candidates, stopped := ApplyEntries(fs, txn);
    left := During(Applying, txn);
    if applied.ApplyCrashed? { return Interrupted, left; }
    ghost var w, log := Visible(fs.disk), fs.replaced;
    AppliedMeans(txn, rewrites, v, w, applied, candidates, stopped);
    if applied.Applied? {
      r, left := MarkAndClean(fs, txn, rewrites, candidates, since);
      if r.Reconciled? && txn.journal !in fs.outside {
        FinishedConcludes(txn, rewrites, fs.outside, fs.disk, r, left);
      }
      MarkedMeans(txn, rewrites, v, w, Visible(fs.disk), candidates, stopped);
    } else {
      r, left := BackOut(fs, txn, rewrites, applied, candidates, since);
      BackedOutMeans(txn, rewrites, v, w, Visible(fs.disk), applied, candidates, stopped, r);
    }
    GrownTwice(start, log, fs.replaced, txn, fs.outside);
  }

  /** What the apply loop came to, for the rewrites. */
  lemma AppliedMeans(txn: Txn, rewrites: seq<Rewrite>, v: Namespace, w: Namespace, applied: ApplyResult,
                     candidates: set<Path>, stopped: nat)
    requires Corresponds(txn.entries, rewrites)
    ensures StoppedAt(txn, v, w, applied, candidates, stopped) && AllHold(rewrites, v, Before) ==> applied.Applied?
    ensures AllHold(rewrites, v, Before) ==> !SomeOff(txn, v)
    ensures PartlyApplied(txn, v, w, candidates) ==>
      forall e :: e in txn.entries && e.destination in candidates ==> !Foreign(w, e)
    ensures StoppedAt(txn, v, w, applied, candidates, stopped) && applied.Applied? ==> AtAfterAll(txn, w)
  {
    if StoppedAt(txn, v, w, applied, candidates, stopped) {
      assert stopped < |rewrites| ==> rewrites[stopped] in rewrites;
      if applied.Applied? {
        forall e | e in txn.entries ensures Get(w, e.destination) == Some(e.after) {
          var k :| 0 <= k < |txn.entries| && txn.entries[k] == e;
        }
      }
    }
    assert forall k :: 0 <= k < |rewrites| ==> rewrites[k] in rewrites;
    if PartlyApplied(txn, v, w, candidates) {
      forall e | e in txn.entries && e.destination in candidates ensures !Foreign(w, e) {
        var k :| 0 <= k < |txn.entries| && txn.entries[k] == e;
        assert NextMoved(txn.entries[k], v, w, candidates);
      }
    }
  }

  ghost predicate AtAfterAll(txn: Txn, v: Namespace)
  {
    forall e :: e in txn.entries ==> Get(v, e.destination) == Some(e.after)
  }

  /** Once everything is applied: kept, or put back. */
  lemma MarkedMeans(txn: Txn, rewrites: seq<Rewrite>, v: Namespace, w: Namespace, now: Namespace,
                    candidates: set<Path>, stopped: nat)
    requires Corresponds(txn.entries, rewrites)
    ensures StoppedAt(txn, v, w, Applied, candidates, stopped) ==>
      && AllHold(rewrites, v, Before)
      && (SameEntries(txn, w, now) ==> AllHold(rewrites, now, After) && EndsAsFound(rewrites, v, Reconciled, now))
      && (PutBack(txn, w, now) ==> AllHold(rewrites, now, Before))
  {
    if StoppedAt(txn, v, w, Applied, candidates, stopped) {
      forall r | r in rewrites
        ensures Get(v, r.destination) == Some(r.before)
        ensures SameEntries(txn, w, now) ==> Get(now, r.destination) == Some(r.after)
        ensures PutBack(txn, w, now) ==> Get(now, r.destination) == Some(r.before)
      {
        var k :| 0 <= k < |rewrites| && rewrites[k] == r;
        assert txn.entries[k] in txn.entries;
      }
    }
  }

  /** Putting back what a loop that stopped anywhere had applied leaves every file as it was found. */
  lemma BackedOutMeans(txn: Txn, rewrites: seq<Rewrite>, v: Namespace, w: Namespace, now: Namespace,
                       applied: ApplyResult, candidates: set<Path>, stopped: nat, r: CommitResult)
    requires Corresponds(txn.entries, rewrites) && !applied.Applied?
    ensures PartlyApplied(txn, v, w, candidates) && PutBack(txn, w, now) ==> BackAsFound(rewrites, v, now)
    ensures PutBack(txn, w, now) && PartlyApplied(txn, v, w, candidates) && AllHold(rewrites, v, Before) ==>
      AllHold(rewrites, now, Before)
    ensures (&& StoppedAt(txn, v, w, applied, candidates, stopped) && PutBack(txn, w, now)
             && r == if applied.Conflict? then ConflictRolledBack else FailureRolledBack)
      ==> EndsAsFound(rewrites, v, r, now)
  {
    if StoppedAt(txn, v, w, applied, candidates, stopped) {
      ExactlyIsPartly(txn, v, w, candidates, stopped);
      assert FirstMismatch(rewrites, v, stopped) && rewrites[stopped] in rewrites;
    }
    if PartlyApplied(txn, v, w, candidates) && PutBack(txn, w, now) {
      forall r | r in rewrites
        ensures Get(now, r.destination)
          == if Get(v, r.destination) == Some(r.after) then Some(r.before) else Get(v, r.destination)
      {
        var k :| 0 <= k < |rewrites| && rewrites[k] == r;
        assert txn.entries[k] in txn.entries && NextMoved(txn.entries[k], v, w, candidates);
      }
    }
  }

  /** Not every entry was applied: roll back. */
  method BackOut(fs: FileSystem, txn: Txn, rewrites: seq<Rewrite>, applied: ApplyResult, candidates: set<Path>,
                 ghost since: nat)
    returns (r: CommitResult, left: Left)
    requires fs.Valid() && ValidRoles(txn) && txn.journal.name.JournalFile?
    requires Corresponds(txn.entries, rewrites) && BeforesHeld(txn, fs.outside, fs.disk)
    requires Keeps(fs.disk, In(Applying, txn, fs.outside)) && !applied.Applied?
    requires forall k :: since <= k < |fs.replaced| ==> fs.replaced[k].path in candidates
    modifies fs`disk, fs`faults, fs`edits, fs`replaced
    ensures fs.Valid() && left == During(Rolling, txn)
    ensures Stands(left, txn.journal, rewrites, fs.outside, fs.disk)
    ensures Grown(old(fs.replaced), fs.replaced, txn, fs.outside)
    ensures RolledBack(r) ==> Finished(fs.disk, txn, Prepared, fs.outside)
    ensures RolledBack(r) || r.Incomplete? || r.Interrupted?
    ensures RolledBack(r) ==> (r.ConflictRolledBack? <==> applied.Conflict?)
    // undisturbed, whatever the loop stopped for, unless a step of the rollback goes wrong
    ensures old(fs.Orderly()) && OnlyDocuments(fs.outside, txn.journal) ==>
      && fs.Since(old(fs.Trouble()), r.Interrupted?)
      && (old(fs.Trouble()).Ok? || fs.faults != [] ==>
            Undone(txn, Visible(old(fs.disk)), Visible(fs.disk), candidates, RolledBack(r)))
    // and whatever others do to documents it goes as far as it can
    ensures old(fs.faults) == [] && OnlyDocuments(fs.outside, txn.journal) ==>
      fs.faults == [] && Concluded(rewrites, txn.journal, fs.outside, r, left, Visible(fs.disk))
    ensures old(fs.edits) == [] ==> fs.edits == []
  {
    ValidRolesHaveProperNames(txn);
    if OnlyDocuments(fs.outside, txn.journal) {
      ReadyToAbort(txn, fs.outside, fs.disk);
    }
    var s, complete;
    ghost var outcome;
    s, complete, outcome := AbortPrepared(fs, txn, candidates, !applied.BadStage?, since);
    left := During(Rolling, txn);
    r := if s.Crashed? then Interrupted else if !complete then Incomplete
         else if applied.Conflict? then ConflictRolledBack else FailureRolledBack;
    if s.Ok? && old(fs.faults) == [] && OnlyDocuments(fs.outside, txn.journal) {
      BackedOutConcludes(txn, rewrites, fs.outside, fs.disk, complete, candidates, r);
    }
  }

  /** With every destination durably at its after image: mark, then clean up or back out. */
  method MarkAndClean(fs: FileSystem, txn: Txn, rewrites: seq<Rewrite>, candidates: set<Path>, ghost since: nat)
    returns (r: CommitResult, left: Left)
    requires fs.Valid() && ValidRoles(txn) && txn.journal.name.JournalFile?
    requires Corresponds(txn.entries, rewrites)
    requires Keeps(fs.disk, In(Applying, txn, fs.outside))
    requires AppliedUpTo(txn, fs.outside, fs.disk, |txn.entries|)
    requires Undoable(txn, fs.outside, fs.disk)
    requires since <= |fs.replaced| && forall k :: since <= k < |fs.replaced| ==>
      fs.replaced[k].path in candidates
    modifies fs`disk, fs`faults, fs`edits, fs`replaced
    ensures fs.Valid() && left.During? && left.txn == txn && !left.phase.Staging?
    ensures Stands(left, txn.journal, rewrites, fs.outside, fs.disk)
    ensures Grown(old(fs.replaced), fs.replaced, txn, fs.outside)
    ensures r.Reconciled? ==> left.phase.Clearing? && Finished(fs.disk, txn, Committed, fs.outside)
    ensures RolledBack(r) ==> left.phase.Rolling? && Finished(fs.disk, txn, Prepared, fs.outside)
    ensures !r.InProgress?
    // undisturbed, it keeps what was applied or puts all of it back, even if one step fails
    ensures old(fs.Orderly()) && OnlyDocuments(fs.outside, txn.journal) && AtAfterAll(txn, Visible(old(fs.disk))) ==>
      && fs.Since(old(fs.Trouble()), r.Interrupted?)
      && (old(fs.Trouble()).Ok? || fs.faults != [] ==> r.Reconciled?)
      && KeptOrPutBack(txn, Visible(old(fs.disk)), Visible(fs.disk), r, left)
    ensures old(fs.faults) == [] && OnlyDocuments(fs.outside, txn.journal) ==> fs.faults == [] && r.Reconciled?
    ensures old(fs.edits) == [] ==> fs.edits == []
  {
    ValidRolesHaveProperNames(txn);
    AllMarking(txn, fs.outside, fs.disk);
    ghost var start := fs.disk;
    var s := MarkCommitted(fs, txn);
    ghost var log, mid := fs.replaced, fs.disk;
    OnlyTheJournal(txn, fs.outside, old(fs.replaced), log);
    OnlyJournalTouched(txn, fs.outside, start, mid);
    left := During(Marking, txn);
    if s.Crashed? { return Interrupted, left; }
    if !s.Ok? {
      r, left := BackOutMarked(fs, txn, rewrites, candidates, since, Visible(start));
      GrownTwice(old(fs.replaced), log, fs.replaced, txn, fs.outside);
      return;
    }
    left := During(Clearing, txn);
    r := CleanCommitted(fs, txn);
    DestinationsKept(txn, Visible(start), mid, fs.disk);
  }

  /** How a commit whose destinations were all applied ends, if it was not interrupted. */
  ghost predicate KeptOrPutBack(txn: Txn, v: Namespace, now: Namespace, r: CommitResult, left: Left)
  {
    match r
    case Reconciled => SameEntries(txn, v, now)
    case FailureRolledBack => PutBack(txn, v, now)
    case Incomplete =>
      && left == During(Clearing, txn) && SameEntries(txn, v, now)
      && Get(now, txn.journal) == Some(BytesOf(txn, Committed))
    case Interrupted => true
    case _ => false
  }

  lemma AllMarking(txn: Txn, outside: set<Path>, d: Disk)
    requires Keeps(d, In(Applying, txn, outside)) && AppliedUpTo(txn, outside, d, |txn.entries|)
    ensures Keeps(d, In(Marking, txn, outside))
  {
    forall e | e in txn.entries ensures Held(d, e.destination, Some(e.after), outside) {
      var k :| 0 <= k < |txn.entries| && txn.entries[k] == e;
      assert Held(d, txn.entries[k].destination, Some(txn.entries[k].after), outside);
    }
    AllApplied(txn, outside, d);
  }

  /** The marker could not be published: back out to what was found as `v`. */
  method BackOutMarked(fs: FileSystem, txn: Txn, rewrites: seq<Rewrite>, candidates: set<Path>, ghost since: nat,
                       ghost v: Namespace)
    returns (r: CommitResult, left: Left)
    requires fs.Valid() && ValidRoles(txn) && txn.journal.name.JournalFile?
    requires Corresponds(txn.entries, rewrites) && Keeps(fs.disk, In(Marking, txn, fs.outside))
    requires Get(Visible(fs.disk), txn.journal) == Some(BytesOf(txn, Prepared)) ==>
      Held(fs.disk, txn.journal, Some(BytesOf(txn, Prepared)), fs.outside)
    requires since <= |fs.replaced| && forall k :: since <= k < |fs.replaced| ==>
      fs.replaced[k].path in candidates || fs.replaced[k].path == txn.journal
    modifies fs`disk, fs`faults, fs`edits, fs`replaced
    ensures fs.Valid() && left.During? && left.txn == txn && left.phase in {Marking, Rolling}
    ensures Stands(left, txn.journal, rewrites, fs.outside, fs.disk)
    ensures Grown(old(fs.replaced), fs.replaced, txn, fs.outside)
    ensures r.FailureRolledBack? ==> left.phase.Rolling? && Finished(fs.disk, txn, Prepared, fs.outside)
    ensures r in {FailureRolledBack, Incomplete, Interrupted}
    ensures (&& old(fs.Calm()) && OnlyDocuments(fs.outside, txn.journal) && old(BeforesHeld(txn, fs.outside, fs.disk))
             && AtAfterAll(txn, Visible(old(fs.disk))) && SameEntries(txn, v, Visible(old(fs.disk))))
      ==> fs.Calm() && r.FailureRolledBack? && PutBack(txn, v, Visible(fs.disk))
    ensures old(fs.edits) == [] ==> fs.edits == []
  {
    ValidRolesHaveProperNames(txn);
    ghost var mid := Visible(fs.disk);
    var s, complete, phase := AbortFailedMarker(fs, txn, candidates, since);
    PutBackSince(txn, v, mid, Visible(fs.disk));
    left := During(phase, txn);
    r := if s.Crashed? then Interrupted else if complete then FailureRolledBack else Incomplete;
  }

  /** Publishing the marker touches nothing of the entries. */
  lemma OnlyJournalTouched(txn: Txn, outside: set<Path>, a: Disk, b: Disk)
    requires ValidRoles(txn) && txn.journal.name.JournalFile? && SparesAllButJournal(a, b, txn.journal)
    ensures AtAfterAll(txn, Visible(a)) ==> SameEntries(txn, Visible(a), Visible(b)) && AtAfterAll(txn, Visible(b))
    ensures BeforesHeld(txn, outside, a) ==> BeforesHeld(txn, outside, b)
  {
    forall e | e in txn.entries
      ensures Get(Visible(a), e.destination) == Some(e.after) ==> Get(Visible(b), e.destination) == Some(e.after)
      ensures Held(a, e.beforePath, Some(e.before), outside) ==> Held(b, e.beforePath, Some(e.before), outside)
    {
      EntriesApart(txn, e, e);
    }
  }

  lemma PutBackSince(txn: Txn, v: Namespace, w: Namespace, now: Namespace)
    ensures SameEntries(txn, v, w) && PutBack(txn, w, now) ==> PutBack(txn, v, now)
  {
  }

  /** Every stage goes, then the journal. */
  method CleanCommitted(fs: FileSystem, txn: Txn) returns (r: CommitResult)
    requires fs.Valid() && ValidRoles(txn) && txn.journal.name.JournalFile?
    requires Keeps(fs.disk, In(Clearing, txn, fs.outside))
    requires Get(Visible(fs.disk), txn.journal) == Some(BytesOf(txn, Committed))
    modifies fs`disk, fs`faults, fs`edits, fs`replaced
    ensures fs.Valid() && Keeps(fs.disk, In(Clearing, txn, fs.outside)) && fs.replaced == old(fs.replaced)
    ensures r.Reconciled? || r.Incomplete? || r.Interrupted?
    ensures r.Reconciled? ==> Finished(fs.disk, txn, Committed, fs.outside)
    ensures old(fs.edits) == [] ==> SparesAround(txn, old(fs.disk), fs.disk)
    ensures old(fs.Steady()) && OnlyDocuments(fs.outside, txn.journal) ==>
      && fs.Since(old(fs.Trouble()), r.Interrupted?)
      && (old(fs.Trouble()).Ok? || fs.faults != [] ==> r.Reconciled?)
      && (r.Incomplete? ==> Get(Visible(fs.disk), txn.journal) == Some(BytesOf(txn, Committed)))
    ensures old(fs.edits) == [] ==> fs.edits == []
  {
    if OnlyDocuments(fs.outside, txn.journal) {
      ValidRolesHaveProperNames(txn);
      AuthenticWhere(Clearing, txn, fs.outside, fs.disk);
      StagesArePrivate(txn, fs.outside);
    }
    var s := CleanupTransactionArtifacts(fs, txn, Committed, Clearing);
    r := if s.Crashed? then Interrupted else if s.Ok? then Reconciled else Incomplete;
  }

  /** Marking and cleaning up change no destination. */
  lemma DestinationsKept(txn: Txn, v: Namespace, b: Disk, c: Disk)
    requires ValidRoles(txn)
    ensures SameEntries(txn, v, Visible(b)) && AtAfterAll(txn, Visible(b)) && SparesAround(txn, b, c) ==>
      SameEntries(txn, v, Visible(c))
  {
    if SameEntries(txn, v, Visible(b)) && AtAfterAll(txn, Visible(b)) && SparesAround(txn, b, c) {
      forall e | e in txn.entries ensures Get(Visible(c), e.destination) == Get(v, e.destination) {
        EntriesApart(txn, e, e);
        assert e.destination in Visible(b) && e.destination !in Removable(txn);
      }
    }
  }

  /** Where others edit only documents, every stage still there is authentic. */
  lemma AuthenticWhere(phase: Phase, txn: Txn, outside: set<Path>, d: Disk)
    requires Keeps(d, In(phase, txn, outside)) && OnlyDocuments(outside, txn.journal)
    requires outside != {} ==> ProperNames(txn)
    ensures AllAuthentic(txn, Visible(d))
  {
    KeepsVisible(d, In(phase, txn, outside));
    assert PhaseAt(phase, txn, outside, Visible(d), Visible(d));
    var staged := StagedArtifacts(txn.entries);
    forall a | a in staged ensures Authentic(Visible(d), a) {
      var k :| 0 <= k < |staged| && staged[k] == a;
      var e := txn.entries[k / 2];
      assert k == 2 * (k / 2) || k == 2 * (k / 2) + 1;
      assert e in txn.entries && EntryAt(phase, txn.journal, e, outside, Visible(d), Visible(d));
    }
  }

  /** Where others edit only documents, the journal and every stage are out of their reach. */
  lemma StagesArePrivate(txn: Txn, outside: set<Path>)
    requires ValidRoles(txn) && OnlyDocuments(outside, txn.journal)
    ensures Removable(txn) !! outside
  {
    var staged := StagedArtifacts(txn.entries);
    forall p | p in Removable(txn) ensures p !in outside {
      if p != txn.journal {
        var k :| 0 <= k < |staged| && staged[k].path == p;
        assert k == 2 * (k / 2) || k == 2 * (k / 2) + 1;
        assert txn.entries[k / 2] in txn.entries && NamesMatch(txn.entries[k / 2]);
      }
    }
  }

  /** A commit that has to be backed out can be. */
  lemma ReadyToAbort(txn: Txn, outside: set<Path>, d: Disk)
    requires ValidRoles(txn) && txn.journal.name.JournalFile? && Keeps(d, In(Applying, txn, outside))
    requires OnlyDocuments(outside, txn.journal) && BeforesHeld(txn, outside, d)
    ensures Ready(txn, Visible(d)) && Backed(txn, Visible(d), |txn.entries|) && Removable(txn) !! outside
  {
    StagesArePrivate(txn, outside);
    ValidRolesHaveProperNames(txn);
    AuthenticWhere(Applying, txn, outside, d);
    KeepsVisible(d, In(Applying, txn, outside));
    assert PhaseAt(Applying, txn, outside, Visible(d), Visible(d));
    forall e | e in txn.entries ensures Get(Visible(d), e.beforePath) == Some(e.before) {
      EntriesApart(txn, e, e);
      assert Held(d, e.beforePath, Some(e.before), outside) && e.beforePath in Removable(txn);
    }
  }
}
