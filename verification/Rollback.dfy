/** Rolling a prepared transaction back, last entry first, without touching what it does not own. */
module Rollback {
  import opened Storage
  import opened Wrappers
  import opened Persistence
  import opened JournalModel
  import opened Cleanup

  datatype DestinationState = AtAfter | AtBefore | Other

  /** A live destination compared with the two recorded images; absence matches neither. */
  function StateOf(v: Namespace, e: Entry): DestinationState
  {
    if Get(v, e.destination) == Some(e.after) then AtAfter
    else if Get(v, e.destination) == Some(e.before) then AtBefore
    else Other
  }

  /** Every destination by what the rollback found and did. */
  datatype Outcome = Outcome(restored: seq<Path>, alreadyBefore: seq<Path>,
                             unresolved: seq<Path>, untouched: seq<Path>)

  /** `None` when every entry is a candidate. */
  type Candidates = Option<set<Path>>

  predicate IsCandidate(candidates: Candidates, p: Path) {
    candidates.None? || p in candidates.value
  }

  function Count(o: Outcome, e: Entry, state: DestinationState, candidates: Candidates): Outcome
  {
    var p := e.destination;
    match state
    case AtAfter => o.(restored := o.restored + [p])
    case AtBefore => o.(alreadyBefore := o.alreadyBefore + [p])
    case Other =>
      if IsCandidate(candidates, p) then o.(unresolved := o.unresolved + [p])
      else o.(untouched := o.untouched + [p])
  }

  /** The outcome of finding `states`, counted from the last entry down to the i-th. */
  function Tally(entries: seq<Entry>, states: seq<DestinationState>, candidates: Candidates,
                 i: nat): Outcome
    requires |entries| == |states|
    decreases |entries| - i
  {
    if i >= |entries| then Outcome([], [], [], [])
    else Count(Tally(entries, states, candidates, i + 1), entries[i], states[i], candidates)
  }

  function RestoreView(v: Namespace, e: Entry): Namespace
  {
    if Get(v, e.destination) == Some(e.after)
    then (v - {e.beforePath})[e.destination := e.before] else v
  }

  /** What is visible once the entries from the last down to the i-th have been rolled back. */
  function View(v: Namespace, entries: seq<Entry>, i: nat): Namespace
    decreases |entries| - i
  {
    if i >= |entries| then v else RestoreView(View(v, entries, i + 1), entries[i])
  }

  // ---- what a rename may replace -----------------------------------------------------

  /** A rename over a destination replaces one of the transaction's own images with the other,
      and puts a before image back only while no crash can leave the committed marker. */
  ghost predicate Guarded(r: Replacement, txn: Txn, outside: set<Path>)
  {
    forall e :: e in txn.entries && r.path == e.destination ==>
      || (r.data == e.after && Get(Visible(r.disk), r.path) == Some(e.before))
      || (&& r.data == e.before && Get(Visible(r.disk), r.path) == Some(e.after)
          && (txn.journal in outside || forall m :: m in Images(r.disk) ==>
                Get(m, txn.journal) != Some(BytesOf(txn, Committed))))
  }

  /** Between `a` and `b` only guarded renames happened. */
  ghost predicate Grown(a: seq<Replacement>, b: seq<Replacement>, txn: Txn, outside: set<Path>)
  {
    a <= b && forall k :: |a| <= k < |b| ==> Guarded(b[k], txn, outside)
  }

  lemma GrownTwice(a: seq<Replacement>, b: seq<Replacement>, c: seq<Replacement>,
                   txn: Txn, outside: set<Path>)
    requires Grown(a, b, txn, outside) && Grown(b, c, txn, outside)
    ensures Grown(a, c, txn, outside)
  {
    forall k | |a| <= k < |c| ensures Guarded(c[k], txn, outside) {
      if k < |b| { assert c[k] == b[k]; }
    }
  }

  /** While rolling back, no crash can leave the committed marker. */
  lemma NeverCommitted(phase: Phase, txn: Txn, outside: set<Path>, d: Disk)
    requires Keeps(d, In(phase, txn, outside)) && Reverting(phase) && txn.journal !in outside
    ensures forall m :: m in Images(d) ==> Get(m, txn.journal) != Some(BytesOf(txn, Committed))
  {
    forall m | m in Images(d) ensures Get(m, txn.journal) != Some(BytesOf(txn, Committed)) {
      assert PhaseAt(phase, txn, outside, m, Visible(d));
    }
  }

  // ---- one destination ---------------------------------------------------------------

  /** An after image with its exact before stage still beside it, or nothing to restore. */
  ghost predicate Covered(v: Namespace, e: Entry)
  {
    StateOf(v, e) == AtAfter ==> Get(v, e.beforePath) == Some(e.before)
  }

  /** An after image whose before stage is gone: nothing is left to restore it from. */
  ghost predicate Stuck(v: Namespace, e: Entry)
  {
    StateOf(v, e) == AtAfter && e.beforePath !in v
  }

  method ClassifyDestination(fs: FileSystem, e: Entry) returns (s: Status, state: DestinationState)
    requires fs.Valid()
    modifies fs`faults
    ensures s.Ok? ==> state == StateOf(Visible(fs.disk), e)
    ensures !s.Exists?
    ensures old(fs.Steady()) ==> fs.Met(old(fs.Trouble()), s)
  {
    var content;
    s, content := fs.Read(e.destination);
    state := if content == Some(e.after) then AtAfter
             else if content == Some(e.before) then AtBefore else Other;
  }

  /** Replace one destination still holding its after image with its before image. */
  method RestoreDestination(fs: FileSystem, txn: Txn, e: Entry, ghost phase: Phase) returns (s: Status)
    requires fs.Valid() && ValidRoles(txn) && e in txn.entries && Reverting(phase)
    requires Keeps(fs.disk, In(phase, txn, fs.outside))
    requires Get(Visible(fs.disk), e.destination) == Some(e.after)
    modifies fs`disk, fs`faults, fs`replaced
    ensures Keeps(fs.disk, In(phase, txn, fs.outside)) && !s.Exists?
    ensures Grown(old(fs.replaced), fs.replaced, txn, fs.outside)
    ensures Spares(old(fs.disk), fs.disk, {e.destination, e.beforePath})
    ensures s.Ok? ==> Visible(fs.disk) == RestoreView(Visible(old(fs.disk)), e)
    // without its before stage nothing is restored
    ensures s.Ok? ==> Get(Visible(old(fs.disk)), e.beforePath) == Some(e.before)
    ensures e.beforePath !in Visible(old(fs.disk)) ==> fs.disk == old(fs.disk)
    ensures OnlyAt(old(fs.replaced), fs.replaced, e.destination)
    ensures old(fs.Steady()) && Get(Visible(old(fs.disk)), e.beforePath) == Some(e.before) ==>
      fs.Met(old(fs.Trouble()), s)
  {
    var present;
    s, present := Authenticate(fs, Artifact(e.beforePath, e.before));
    if !s.Ok? { return; }
    if !present { return Failed; }
    RestoreKeepsRolling(phase, txn, fs.outside, fs.disk, e);
    RestoreIsGuarded(phase, txn, fs.outside, fs.disk, e);
    ghost var r, log := Replacement(fs.disk, e.destination, e.before), fs.replaced;
    s := fs.ReplaceStaged(e.beforePath, e.destination, In(phase, txn, fs.outside));
    GrownOnce(log, fs.replaced, r, txn, fs.outside);
    Restored(Visible(r.disk), e);
  }

  lemma GrownOnce(a: seq<Replacement>, b: seq<Replacement>, r: Replacement, txn: Txn, outside: set<Path>)
    requires (b == a || b == a + [r]) && Guarded(r, txn, outside)
    ensures Grown(a, b, txn, outside) && OnlyAt(a, b, r.path)
  {
  }

  /** Between `a` and `b` only `p` was renamed over. */
  ghost predicate OnlyAt(a: seq<Replacement>, b: seq<Replacement>, p: Path)
  {
    forall k :: |a| <= k < |b| ==> b[k].path == p
  }

  lemma Restored(v: Namespace, e: Entry)
    requires Get(v, e.destination) == Some(e.after) && e.beforePath.dir == e.destination.dir
    ensures Apply(v, Move(e.beforePath, e.destination, e.before)) == RestoreView(v, e)
  {
  }

  lemma RestoreIsGuarded(phase: Phase, txn: Txn, outside: set<Path>, d: Disk, e: Entry)
    requires Reverting(phase) && ValidRoles(txn) && e in txn.entries && Keeps(d, In(phase, txn, outside))
    requires Get(Visible(d), e.destination) == Some(e.after)
    ensures Guarded(Replacement(d, e.destination, e.before), txn, outside)
  {
    if txn.journal !in outside {
      NeverCommitted(phase, txn, outside, d);
    }
    forall f | f in txn.entries && f.destination == e.destination ensures f == e {
      EntriesApart(txn, e, f);
    }
  }

  /** The next entry: another process may run, then it is classified and perhaps restored. */
  method RollbackNext(fs: FileSystem, txn: Txn, i: nat, ghost phase: Phase)
    returns (s: Status, state: DestinationState)
    requires fs.Valid() && ValidRoles(txn) && i < |txn.entries| && Reverting(phase)
    requires Keeps(fs.disk, In(phase, txn, fs.outside))
    modifies fs`disk, fs`faults, fs`edits, fs`replaced
    ensures fs.Valid() && Keeps(fs.disk, In(phase, txn, fs.outside)) && !s.Exists?
    ensures Grown(old(fs.replaced), fs.replaced, txn, fs.outside) && fs.Editable() <= old(fs.Editable())
    ensures old(fs.edits) == [] ==> fs.edits == []
    ensures var e := txn.entries[i];
      Spares(old(fs.disk), fs.disk, old(fs.Editable()) + {e.destination, e.beforePath})
    ensures s.Ok? && state != AtAfter ==> Spares(old(fs.disk), fs.disk, old(fs.Editable()))
    ensures s.Ok? && txn.journal !in fs.outside ==>
      && BeforeAt(txn.entries[i], fs.outside, Visible(fs.disk))
      && (state == Other ==> txn.entries[i].destination in fs.outside)
    ensures s.Ok? && old(fs.edits) == [] ==>
      && state == StateOf(Visible(old(fs.disk)), txn.entries[i])
      && Visible(fs.disk) == RestoreView(Visible(old(fs.disk)), txn.entries[i])
      && Covered(Visible(old(fs.disk)), txn.entries[i])
    ensures old(fs.edits) == [] && Stuck(Visible(old(fs.disk)), txn.entries[i]) ==>
      !s.Ok? && fs.disk == old(fs.disk)
    ensures OnlyAt(old(fs.replaced), fs.replaced, txn.entries[i].destination)
    ensures |old(fs.replaced)| < |fs.replaced| ==> state == AtAfter
    ensures var e := txn.entries[i]; var v := Visible(old(fs.disk));
      old(fs.Orderly()) && (StateOf(v, e) == AtAfter ==> Get(v, e.beforePath) == Some(e.before))
      ==> fs.Met(old(fs.Trouble()), s)
    // whatever others do elsewhere, a before stage that is there is enough
    ensures var e := txn.entries[i]; var v := Visible(old(fs.disk));
      e.beforePath !in old(fs.Editable()) && Get(v, e.beforePath) == Some(e.before) ==>
        && (old(fs.Steady()) ==> fs.Met(old(fs.Trouble()), s))
        && (s.Ok? ==> Get(Visible(fs.disk), e.beforePath) in {None, Some(e.before)})
    ensures old(fs.edits) != [] ==> fs.edits == old(fs.edits)[1..]
  {
    var e := txn.entries[i];
    OutsideIgnored(phase, txn, fs.outside);
    fs.Environment(In(phase, txn, fs.outside));
    s, state := ClassifyDestination(fs, e);
    if !s.Ok? { return; }
    if state.AtAfter? {
      s := RestoreDestination(fs, txn, e, phase);
    } else if txn.journal !in fs.outside {
      VisibleEntry(phase, txn, fs.outside, fs.disk, e);
    }
  }

  lemma VisibleEntry(phase: Phase, txn: Txn, outside: set<Path>, d: Disk, e: Entry)
    requires Reverting(phase) && Keeps(d, In(phase, txn, outside)) && e in txn.entries && txn.journal !in outside
    ensures EntryAt(phase, txn.journal, e, outside, Visible(d), Visible(d))
    ensures StateOf(Visible(d), e) == Other ==> e.destination in outside
  {
    KeepsVisible(d, In(phase, txn, outside));
    assert PhaseAt(phase, txn, outside, Visible(d), Visible(d));
  }

  // ---- the whole rollback ------------------------------------------------------------

  /** Nothing visible stands in the way of rolling back: every stage authentic, and each
      after image still covered by its before stage. */
  ghost predicate Ready(txn: Txn, v: Namespace)
  {
    && AllAuthentic(txn, v) && Get(v, txn.journal) == Some(BytesOf(txn, Prepared))
    && forall e :: e in txn.entries && StateOf(v, e) == AtAfter ==> e.beforePath in v
  }

  /** Nor does anything others do elsewhere: every stage is authentic, and the before stages of the
      first `i` entries are there, whatever their destinations come to hold. */
  ghost predicate Backed(txn: Txn, v: Namespace, i: nat)
  {
    && AllAuthentic(txn, v) && Get(v, txn.journal) == Some(BytesOf(txn, Prepared))
    && forall k :: 0 <= k < i && k < |txn.entries| ==> Get(v, txn.entries[k].beforePath) == Some(txn.entries[k].before)
  }

  /** A rollback that starts here succeeds, unless a step goes wrong. */
  ghost predicate Unhindered(fs: FileSystem, txn: Txn)
    reads fs
  {
    && Smooth(fs, txn)
    && if fs.edits == [] then Ready(txn, Visible(fs.disk)) else Backed(txn, Visible(fs.disk), |txn.entries|)
  }

  /** Restoring one destination takes at most its before stage away. */
  lemma StillAuthentic(txn: Txn, a: Disk, b: Disk, e: Entry, editable: set<Path>)
    requires ValidRoles(txn) && e in txn.entries && AllAuthentic(txn, Visible(a)) && Removable(txn) !! editable
    requires Spares(a, b, editable + {e.destination, e.beforePath})
    requires Get(Visible(b), e.beforePath) in {None, Get(Visible(a), e.beforePath)}
    ensures AllAuthentic(txn, Visible(b))
  {
    forall s | s in StagedArtifacts(txn.entries) ensures Authentic(Visible(b), s) {
      assert Authentic(Visible(a), s) && s.path in Removable(txn);
    }
  }

  lemma BackedNext(txn: Txn, a: Disk, b: Disk, i: nat, editable: set<Path>)
    requires ValidRoles(txn) && i < |txn.entries| && Backed(txn, Visible(a), i + 1) && Removable(txn) !! editable
    requires var e := txn.entries[i]; Spares(a, b, editable + {e.destination, e.beforePath})
    ensures Get(Visible(b), txn.journal) == Some(BytesOf(txn, Prepared))
    ensures Get(Visible(b), txn.entries[i].beforePath) in {None, Some(txn.entries[i].before)} ==>
      Backed(txn, Visible(b), i)
  {
    var e := txn.entries[i];
    EntriesApart(txn, e, e);
    if Get(Visible(b), e.beforePath) in {None, Some(e.before)} {
      StillAuthentic(txn, a, b, e, editable);
      forall k | 0 <= k < i
        ensures Get(Visible(b), txn.entries[k].beforePath) == Some(txn.entries[k].before)
      {
        EntriesApart(txn, txn.entries[k], e);
        EntriesApart(txn, e, txn.entries[k]);
      }
    }
  }

  /** Rolled back from the last entry down to the i-th: the rest is as it was. */
  ghost predicate Partway(txn: Txn, v: Namespace, now: Namespace, i: nat)
    requires i <= |txn.entries|
  {
    && now == View(v, txn.entries, i)
    && Get(now, txn.journal) == Get(v, txn.journal)
    && (forall k :: 0 <= k < i ==>
          && StateOf(now, txn.entries[k]) == StateOf(v, txn.entries[k])
          && Get(now, txn.entries[k].beforePath) == Get(v, txn.entries[k].beforePath))
  }

  lemma OneMore(txn: Txn, v: Namespace, now: Namespace, i: nat)
    requires ValidRoles(txn) && i < |txn.entries| && Partway(txn, v, now, i + 1)
    ensures Partway(txn, v, RestoreView(now, txn.entries[i]), i)
  {
    var e := txn.entries[i];
    EntriesApart(txn, e, e);
    forall k | 0 <= k < i
      ensures StateOf(RestoreView(now, e), txn.entries[k]) == StateOf(v, txn.entries[k])
      ensures Get(RestoreView(now, e), txn.entries[k].beforePath) == Get(v, txn.entries[k].beforePath)
    {
      EntriesApart(txn, txn.entries[k], e);
      EntriesApart(txn, e, txn.entries[k]);
    }
  }

  ghost predicate AllCovered(txn: Txn, v: Namespace)
  {
    forall e :: e in txn.entries ==> Covered(v, e)
  }

  /** What was stuck is stuck, under the same journal. */
  ghost predicate StillStuck(txn: Txn, v: Namespace, w: Namespace)
  {
    forall e :: e in txn.entries && Stuck(v, e) ==>
      Stuck(w, e) && Get(w, txn.journal) == Get(v, txn.journal)
  }

  lemma CoveredIsNotStuck(txn: Txn, v: Namespace, w: Namespace)
    requires AllCovered(txn, v)
    ensures StillStuck(txn, v, w)
  {
    forall e | e in txn.entries ensures !Stuck(v, e) {
      assert Covered(v, e);
    }
  }

  /** A rollback stopped by the i-th entry leaves every stuck destination stuck. */
  lemma StoppedStillStuck(txn: Txn, a: Disk, b: Disk, c: Disk, i: nat)
    requires ValidRoles(txn) && i < |txn.entries| && Partway(txn, Visible(a), Visible(b), i + 1)
    requires forall k :: i < k < |txn.entries| ==> Covered(Visible(a), txn.entries[k])
    requires var e := txn.entries[i];
      Spares(b, c, {e.destination, e.beforePath}) && (Stuck(Visible(b), e) ==> c == b)
    ensures StillStuck(txn, Visible(a), Visible(c))
  {
    var e := txn.entries[i];
    EntriesApart(txn, e, e);
    forall f | f in txn.entries && Stuck(Visible(a), f)
      ensures Stuck(Visible(c), f) && Get(Visible(c), txn.journal) == Get(Visible(a), txn.journal)
    {
      var k :| 0 <= k < |txn.entries| && txn.entries[k] == f;
      assert k <= i && Stuck(Visible(b), f);
      if k < i {
        OthersKeepStuck(txn, b, c, e, f);
      }
    }
  }

  lemma OthersKeepStuck(txn: Txn, b: Disk, c: Disk, e: Entry, f: Entry)
    requires ValidRoles(txn) && e in txn.entries && f in txn.entries && f != e
    requires Spares(b, c, {e.destination, e.beforePath}) && Stuck(Visible(b), f)
    ensures Stuck(Visible(c), f)
  {
    EntriesApart(txn, e, f);
    EntriesApart(txn, f, e);
    assert Get(Visible(c), f.destination) == Get(Visible(b), f.destination);
    assert Get(Visible(c), f.beforePath) == Get(Visible(b), f.beforePath);
  }

  /** Entries before the i-th can still be rolled back. */
  ghost predicate CoveredBelow(txn: Txn, v: Namespace, i: nat)
    requires i <= |txn.entries|
  {
    forall k :: 0 <= k < i ==> Covered(v, txn.entries[k])
  }

  lemma StillCovered(txn: Txn, v: Namespace, i: nat)
    requires ValidRoles(txn) && i < |txn.entries| && CoveredBelow(txn, v, i + 1)
    ensures Covered(v, txn.entries[i]) && CoveredBelow(txn, RestoreView(v, txn.entries[i]), i)
  {
    var e := txn.entries[i];
    forall k | 0 <= k < i ensures Covered(RestoreView(v, e), txn.entries[k]) {
      EntriesApart(txn, txn.entries[k], e);
      EntriesApart(txn, e, txn.entries[k]);
      assert Covered(v, txn.entries[k]);
    }
  }

  /** With every stage authentic, a stage that is there is the one that is needed. */
  lemma ReadyIsCovered(txn: Txn, v: Namespace)
    ensures Ready(txn, v) ==> AllCovered(txn, v)
  {
    if Ready(txn, v) {
      var staged := StagedArtifacts(txn.entries);
      forall e | e in txn.entries ensures Covered(v, e) {
        var k :| 0 <= k < |txn.entries| && txn.entries[k] == e;
        assert staged[2 * k] in staged && Authentic(v, staged[2 * k]);
      }
    }
  }

  ghost predicate BeforeFrom(txn: Txn, outside: set<Path>, v: Namespace, i: nat)
  {
    forall k :: i <= k < |txn.entries| ==> BeforeAt(txn.entries[k], outside, v)
  }

  lemma BeforeFromSpared(txn: Txn, outside: set<Path>, a: Disk, b: Disk, i: nat, editable: set<Path>)
    requires ValidRoles(txn) && i < |txn.entries| && BeforeFrom(txn, outside, Visible(a), i + 1)
    requires var e := txn.entries[i];
      Spares(a, b, editable + {e.destination, e.beforePath}) && editable <= outside
    requires BeforeAt(txn.entries[i], outside, Visible(b))
    ensures BeforeFrom(txn, outside, Visible(b), i)
  {
    forall k | i <= k < |txn.entries| ensures BeforeAt(txn.entries[k], outside, Visible(b)) {
      EntriesApart(txn, txn.entries[k], txn.entries[i]);
      assert k > i ==> BeforeAt(txn.entries[k], outside, Visible(a));
    }
  }

  /** Nothing but restored destinations and the before stages they consumed has changed. */
  ghost predicate OnlyRestored(txn: Txn, states: seq<DestinationState>, i: nat,
                               a: Disk, b: Disk, editable: set<Path>)
    requires |states| == |txn.entries|
  {
    forall p :: p !in editable && Get(Visible(b), p) != Get(Visible(a), p) ==>
      exists k :: i <= k < |states| && states[k] == AtAfter
               && p in {txn.entries[k].destination, txn.entries[k].beforePath}
  }

  lemma OneMoreRestored(txn: Txn, states: seq<DestinationState>, i: nat, state: DestinationState,
                        a: Disk, b: Disk, c: Disk, editable: set<Path>, less: set<Path>)
    requires i < |txn.entries| == |states| && less <= editable
    requires OnlyRestored(txn, states, i + 1, a, b, editable)
    requires var e := txn.entries[i]; Spares(b, c, less + {e.destination, e.beforePath})
    requires state != AtAfter ==> Spares(b, c, less)
    ensures OnlyRestored(txn, states[i := state], i, a, c, editable)
  {
    var now := states[i := state];
    forall p | p !in editable && Get(Visible(c), p) != Get(Visible(a), p)
      ensures exists k :: i <= k < |now| && now[k] == AtAfter
                       && p in {txn.entries[k].destination, txn.entries[k].beforePath}
    {
      if Get(Visible(b), p) != Get(Visible(a), p) {
        var k :| i + 1 <= k < |states| && states[k] == AtAfter
              && p in {txn.entries[k].destination, txn.entries[k].beforePath};
        assert now[k] == AtAfter;
      } else {
        assert now[i] == AtAfter;
      }
    }
  }

  /** What rolling back the entries from the i-th on has established. `still` says that no
      other process could edit anything meanwhile. */
  ghost predicate RolledFrom(txn: Txn, outside: set<Path>, states: seq<DestinationState>, i: nat,
                             a: Disk, b: Disk, editable: set<Path>, still: bool)
    requires i <= |states| == |txn.entries|
  {
    && OnlyRestored(txn, states, i, a, b, editable)
    && (txn.journal !in outside ==>
          && BeforeFrom(txn, outside, Visible(b), i)
          && forall k :: i <= k < |states| && states[k] == Other ==>
               txn.entries[k].destination in outside)
    && (still ==>
          && Partway(txn, Visible(a), Visible(b), i)
          && forall k :: i <= k < |states| ==>
               states[k] == StateOf(Visible(a), txn.entries[k]) && Covered(Visible(a), txn.entries[k]))
  }

  lemma RolledNext(txn: Txn, outside: set<Path>, states: seq<DestinationState>, i: nat,
                   state: DestinationState, a: Disk, b: Disk, c: Disk,
                   editable: set<Path>, less: set<Path>, still: bool)
    requires ValidRoles(txn) && i < |txn.entries| == |states|
    requires RolledFrom(txn, outside, states, i + 1, a, b, editable, still)
    requires less <= editable <= outside
    requires var e := txn.entries[i];
      && Spares(b, c, less + {e.destination, e.beforePath})
      && (state != AtAfter ==> Spares(b, c, less))
      && (txn.journal !in outside ==>
            BeforeAt(e, outside, Visible(c)) && (state == Other ==> e.destination in outside))
      && (still ==> && state == StateOf(Visible(b), e) && Covered(Visible(b), e)
                    && Visible(c) == RestoreView(Visible(b), e))
    ensures RolledFrom(txn, outside, states[i := state], i, a, c, editable, still)
  {
    OneMoreRestored(txn, states, i, state, a, b, c, editable, less);
    if txn.journal !in outside {
      BeforeFromSpared(txn, outside, b, c, i, less);
    }
    if still {
      OneMore(txn, Visible(a), Visible(b), i);
    }
  }

  lemma {:induction false} TallyReadsAbove(entries: seq<Entry>, states: seq<DestinationState>,
                                           candidates: Candidates, i: nat, state: DestinationState,
                                           k: nat)
    requires i < k && i < |entries| == |states|
    ensures Tally(entries, states[i := state], candidates, k) == Tally(entries, states, candidates, k)
    decreases |entries| - k
  {
    if k < |entries| {
      TallyReadsAbove(entries, states, candidates, i, state, k + 1);
    }
  }

  ghost predicate Tallied(o: Outcome, entries: seq<Entry>, states: seq<DestinationState>,
                          candidates: Candidates, i: nat)
  {
    |states| == |entries| && o == Tally(entries, states, candidates, i)
  }

  lemma TalliedNext(o: Outcome, entries: seq<Entry>, states: seq<DestinationState>,
                    candidates: Candidates, i: nat, state: DestinationState)
    requires i < |entries| && Tallied(o, entries, states, candidates, i + 1)
    ensures Tallied(Count(o, entries[i], state, candidates), entries, states[i := state], candidates, i)
  {
    TallyReadsAbove(entries, states, candidates, i, state, i + 1);
  }

  /** What a rollback started from. */
  datatype Origin = Origin(disk: Disk, replaced: seq<Replacement>, editable: set<Path>,
                           still: bool, ready: bool, backed: bool, trouble: Status)

  /** What the loop over the entries maintains. */
  ghost predicate Progress(fs: FileSystem, from: Origin, txn: Txn, candidates: Candidates,
                           outcome: Outcome, states: seq<DestinationState>, i: nat, phase: Phase)
    requires i <= |txn.entries|
    reads fs
  {
    && fs.Valid() && Keeps(fs.disk, In(phase, txn, fs.outside))
    && Grown(from.replaced, fs.replaced, txn, fs.outside)
    && fs.Editable() <= from.editable <= fs.outside && (from.still ==> fs.edits == [])
    && Tallied(outcome, txn.entries, states, candidates, i)
    && RolledFrom(txn, fs.outside, states, i, from.disk, fs.disk, from.editable, from.still)
    && (from.ready ==> from.still && fs.Met(from.trouble, Ok) && CoveredBelow(txn, Visible(fs.disk), i))
    && (from.backed ==>
          Removable(txn) !! from.editable && fs.Met(from.trouble, Ok) && Backed(txn, Visible(fs.disk), i))
  }

  ghost function OriginOf(fs: FileSystem, txn: Txn): Origin
    reads fs
  {
    Origin(fs.disk, fs.replaced, fs.Editable(), fs.edits == [], fs.Orderly() && AllCovered(txn, Visible(fs.disk)),
           Smooth(fs, txn) && Backed(txn, Visible(fs.disk), |txn.entries|), fs.Trouble())
  }

  /** What holds of a rollback however it ended; what was stuck is stuck if it stopped short. */
  ghost predicate Halted(fs: FileSystem, from: Origin, txn: Txn, phase: Phase, s: Status)
    reads fs
  {
    && fs.Valid() && Keeps(fs.disk, In(phase, txn, fs.outside))
    && Grown(from.replaced, fs.replaced, txn, fs.outside) && fs.Editable() <= from.editable
    && (from.still ==> fs.edits == [])
    && (from.still && !s.Ok? ==> StillStuck(txn, Visible(from.disk), Visible(fs.disk)))
    && (from.ready ==>
          fs.Met(from.trouble, s) && Get(Visible(fs.disk), txn.journal) == Get(Visible(from.disk), txn.journal))
    && (from.backed ==>
          fs.Met(from.trouble, s) && Get(Visible(fs.disk), txn.journal) == Some(BytesOf(txn, Prepared)))
  }

  method RollbackStep(fs: FileSystem, ghost from: Origin, txn: Txn, candidates: Candidates, i: nat,
                      outcome: Outcome, states: seq<DestinationState>, ghost phase: Phase)
    returns (s: Status, outcome': Outcome, states': seq<DestinationState>)
    requires ValidRoles(txn) && i < |txn.entries| && Reverting(phase)
    requires Progress(fs, from, txn, candidates, outcome, states, i + 1, phase)
    modifies fs`disk, fs`faults, fs`edits, fs`replaced
    ensures if s.Ok? then Progress(fs, from, txn, candidates, outcome', states', i, phase)
            else Halted(fs, from, txn, phase, s)
    ensures !s.Exists?
  {
    ghost var here, less, log := fs.disk, fs.Editable(), fs.replaced;
    outcome', states' := outcome, states;
    if from.ready {
      StillCovered(txn, Visible(here), i);
    }
    var state;
    s, state := RollbackNext(fs, txn, i, phase);
    EntriesApart(txn, txn.entries[i], txn.entries[i]);
    GrownTwice(from.replaced, log, fs.replaced, txn, fs.outside);
    if from.backed {
      BackedNext(txn, here, fs.disk, i, less);
    }
    if !s.Ok? {
      if from.still {
        StoppedStillStuck(txn, from.disk, here, fs.disk, i);
      }
      return;
    }
    RolledNext(txn, fs.outside, states, i, state, from.disk, here, fs.disk, from.editable, less, from.still);
    TalliedNext(outcome, txn.entries, states, candidates, i, state);
    outcome' := Count(outcome, txn.entries[i], state, candidates);
    states' := states[i := state];
  }

  lemma ProgressAtFirst(fs: FileSystem, txn: Txn, candidates: Candidates, states: seq<DestinationState>,
                        phase: Phase)
    requires fs.Valid() && ValidRoles(txn) && Keeps(fs.disk, In(phase, txn, fs.outside))
    requires |states| == |txn.entries|
    ensures Progress(fs, OriginOf(fs, txn), txn, candidates, Outcome([], [], [], []), states, |txn.entries|, phase)
  {
  }

  /** Classify and restore every entry, last first. */
  method RollbackEntries(fs: FileSystem, txn: Txn, candidates: Candidates, ghost phase: Phase)
    returns (s: Status, outcome: Outcome, states: seq<DestinationState>)
    requires fs.Valid() && ValidRoles(txn) && Reverting(phase) && Keeps(fs.disk, In(phase, txn, fs.outside))
    modifies fs`disk, fs`faults, fs`edits, fs`replaced
    ensures s.Ok? ==> |states| == |txn.entries| && outcome == Tally(txn.entries, states, candidates, 0)
    ensures s.Ok? ==> RolledFrom(txn, fs.outside, states, 0, old(fs.disk), fs.disk,
                                 old(fs.Editable()), old(fs.edits) == [])
    ensures Halted(fs, old(OriginOf(fs, txn)), txn, phase, s) && !s.Exists?
    ensures s.Ok? && old(OriginOf(fs, txn)).backed ==> Backed(txn, Visible(fs.disk), 0)
  {
    ghost var from := OriginOf(fs, txn);
    outcome, states := Outcome([], [], [], []), seq(|txn.entries|, _ => Other);
    ProgressAtFirst(fs, txn, candidates, states, phase);
    for i := |txn.entries| downto 0
      invariant Progress(fs, from, txn, candidates, outcome, states, i, phase)
    {
      s, outcome, states := RollbackStep(fs, from, txn, candidates, i, outcome, states, phase);
      if !s.Ok? { return; }
    }
    s := Ok;
  }

  lemma RolledAll(txn: Txn, outside: set<Path>, states: seq<DestinationState>, a: Disk, b: Disk,
                  editable: set<Path>, still: bool, w: Namespace)
    requires |states| == |txn.entries|
    requires RolledFrom(txn, outside, states, 0, a, b, editable, still)
    ensures txn.journal !in outside ==> AllBefore(txn, outside, Visible(b))
    ensures still ==> Visible(b) == View(Visible(a), txn.entries, 0)
    ensures still ==> Found(txn, Visible(a), states)
    ensures still ==> AllCovered(txn, Visible(a)) && StillStuck(txn, Visible(a), w)
    ensures txn.journal !in outside ==> forall k :: 0 <= k < |states| && states[k] == Other ==>
      txn.entries[k].destination in outside
  {
    forall e | e in txn.entries && txn.journal !in outside ensures BeforeAt(e, outside, Visible(b)) {
      var k :| 0 <= k < |txn.entries| && txn.entries[k] == e;
      assert BeforeAt(txn.entries[k], outside, Visible(b));
    }
    if still {
      forall e | e in txn.entries ensures Covered(Visible(a), e) {
        var k :| 0 <= k < |txn.entries| && txn.entries[k] == e;
        assert Covered(Visible(a), txn.entries[k]);
      }
      CoveredIsNotStuck(txn, Visible(a), w);
    }
  }

  /** Restore transaction-owned after images; clean up only if nothing stayed unresolved. */
  method RollbackPrepared(fs: FileSystem, txn: Txn, candidates: Candidates, ghost phase: Phase)
    returns (s: Status, outcome: Outcome, states: seq<DestinationState>)
    requires fs.Valid() && ValidRoles(txn) && txn.journal.name.JournalFile? && Reverting(phase)
    requires Keeps(fs.disk, In(phase, txn, fs.outside))
    modifies fs`disk, fs`faults, fs`edits, fs`replaced
    ensures fs.Valid() && Keeps(fs.disk, In(phase, txn, fs.outside)) && !s.Exists?
    ensures Grown(old(fs.replaced), fs.replaced, txn, fs.outside) && fs.Editable() <= old(fs.Editable())
    ensures old(fs.edits) == [] ==> fs.edits == []
    ensures s.Ok? ==> |states| == |txn.entries| && outcome == Tally(txn.entries, states, candidates, 0)
    ensures s.Ok? && txn.journal !in fs.outside ==> AllBefore(txn, fs.outside, Visible(fs.disk))
    ensures s.Ok? && txn.journal !in fs.outside ==>
      forall k :: 0 <= k < |states| && states[k] == Other ==>
        txn.entries[k].destination in fs.outside
    ensures s.Ok? && outcome.unresolved == [] ==>
      Finished(fs.disk, txn, Prepared, fs.outside) && txn.journal !in Visible(fs.disk)
    ensures s.Ok? && outcome.unresolved != [] ==>
      OnlyRestored(txn, states, 0, old(fs.disk), fs.disk, old(fs.Editable()))
    ensures s.Ok? && old(fs.edits) == [] ==>
      && Found(txn, Visible(old(fs.disk)), states)
      && (outcome.unresolved != [] ==> Visible(fs.disk) == View(Visible(old(fs.disk)), txn.entries, 0))
      && (forall p :: p !in Removable(txn) ==>
            Get(Visible(fs.disk), p) == Get(View(Visible(old(fs.disk)), txn.entries, 0), p))
    // undisturbed, the outcome is read off what was visible, and so is what is visible then
    ensures s.Ok? && old(fs.edits) == [] ==>
      && Reported(txn.entries, Visible(old(fs.disk)), candidates, outcome)
      && PutBack(txn, Visible(old(fs.disk)), Visible(fs.disk))
      && (outcome.unresolved != [] ==> Retained(txn, Visible(old(fs.disk)), Visible(fs.disk)))
    // a published journal goes last
    ensures phase.Rolling? ==> JournalLast(fs.disk, txn, Prepared, fs.outside)
    // undisturbed, it succeeds exactly if every after image still has its before stage
    ensures s.Ok? && old(fs.edits) == [] ==> AllCovered(txn, Visible(old(fs.disk)))
    // a stage that is not what was recorded stops the cleanup, not the restores
    ensures old(fs.Calm()) && AllCovered(txn, Visible(old(fs.disk))) && !AllAuthentic(txn, Visible(old(fs.disk))) ==>
      PutBack(txn, Visible(old(fs.disk)), Visible(fs.disk))
    // a step that goes wrong may stop it, and then the journal is still there
    ensures old(Unhindered(fs, txn)) ==>
      fs.Survived(old(fs.Trouble()), s)
      && (s.Failed? || (s.Ok? && outcome.unresolved != []) ==>
            Get(Visible(fs.disk), txn.journal) == Some(BytesOf(txn, Prepared)))
    ensures (&& old(fs.Calm()) && AllAuthentic(txn, Visible(old(fs.disk)))
             && Get(Visible(old(fs.disk)), txn.journal) == Some(BytesOf(txn, Prepared)))
      ==> (s.Ok? <==> Ready(txn, Visible(old(fs.disk))))
    // and a destination that cannot be restored stays that way
    ensures old(fs.edits) == [] ==> StillStuck(txn, Visible(old(fs.disk)), Visible(fs.disk))
  {
    ReadyIsCovered(txn, Visible(fs.disk));
    s, outcome, states := RollbackEntries(fs, txn, candidates, phase);
    StillPublished(phase, txn, Prepared, fs.outside, fs.disk, fs.disk, {});
    if !s.Ok? { return; }
    RolledAll(txn, fs.outside, states, old(fs.disk), fs.disk, old(fs.Editable()), old(fs.edits) == [],
              Visible(fs.disk));
    CoveredIsReady(txn, Visible(old(fs.disk)));
    ghost var mid := fs.disk;
    ViewAsRecorded(txn, Visible(old(fs.disk)));
    if outcome.unresolved != [] {
      RolledBackReads(txn, Visible(old(fs.disk)), states, candidates, mid, mid, old(fs.edits) == []);
      return;
    }
    s := CleanupTransactionArtifacts(fs, txn, Prepared, phase);
    if old(fs.edits) == [] {
      CoveredIsNotStuck(txn, Visible(old(fs.disk)), Visible(fs.disk));
    }
    KeptBefore(txn, fs.outside, fs.disk, s);
    if s.Ok? {
      RolledBackReads(txn, Visible(old(fs.disk)), states, candidates, mid, fs.disk, old(fs.edits) == []);
    }
  }

  /** Restoring makes no stage other than it was, and leaves the journal. */
  lemma ViewAsRecorded(txn: Txn, v: Namespace)
    requires ValidRoles(txn)
    ensures var w := View(v, txn.entries, 0);
      && Get(w, txn.journal) == Get(v, txn.journal) && PutBack(txn, v, w)
      && (AllCovered(txn, v) ==> (AllAuthentic(txn, v) <==> AllAuthentic(txn, w)))
  {
    ViewOfEntries(txn, v);
    var w, staged := View(v, txn.entries, 0), StagedArtifacts(txn.entries);
    if AllCovered(txn, v) {
      forall a | a in staged ensures Authentic(v, a) <==> Authentic(w, a) {
        var k :| 0 <= k < |staged| && staged[k] == a;
        var e := txn.entries[k / 2];
        assert e in txn.entries && Covered(v, e) && (k == 2 * (k / 2) || k == 2 * (k / 2) + 1);
      }
    }
  }

  lemma CoveredIsReady(txn: Txn, v: Namespace)
    ensures (&& AllCovered(txn, v) && AllAuthentic(txn, v)
             && Get(v, txn.journal) == Some(BytesOf(txn, Prepared))) ==> Ready(txn, v)
  {
    if AllCovered(txn, v) {
      forall e | e in txn.entries && StateOf(v, e) == AtAfter ensures e.beforePath in v {
        assert Covered(v, e);
      }
    }
  }

  lemma KeptBefore(txn: Txn, outside: set<Path>, d: Disk, s: Status)
    requires s.Ok? ==> Finished(d, txn, Prepared, outside)
    ensures s.Ok? && txn.journal !in outside ==> AllBefore(txn, outside, Visible(d))
  {
  }

  // ---- what the outcome means --------------------------------------------------------

  /** A live destination that holds neither of its two images. */
  ghost predicate Foreign(v: Namespace, e: Entry)
  {
    Get(v, e.destination) !in {Some(e.before), Some(e.after)}
  }

  /** `p` stands before `q` in a list that goes through the entries from the last to the first. */
  ghost predicate ListedBefore(entries: seq<Entry>, p: Path, q: Path)
  {
    exists i, j :: 0 <= j < i < |entries| && entries[i].destination == p && entries[j].destination == q
  }

  ghost predicate LastFirst(entries: seq<Entry>, paths: seq<Path>)
  {
    forall a, b :: 0 <= a < b < |paths| ==> ListedBefore(entries, paths[a], paths[b])
  }

  /** `o` lists every destination once, last entry first, by what is there as `v`: its after image,
      only its before image, or something foreign, which is unresolved unless the caller knows that
      it never renamed anything over it. */
  ghost predicate Reported(entries: seq<Entry>, v: Namespace, candidates: Candidates, o: Outcome)
  {
    && (forall p :: p in o.restored <==>
          (exists e :: e in entries && e.destination == p && Get(v, p) == Some(e.after)))
    && (forall p :: p in o.alreadyBefore <==>
          (exists e :: e in entries && e.destination == p && Get(v, p) == Some(e.before) != Some(e.after)))
    && (forall p :: p in o.unresolved <==>
          (&& (candidates.Some? ==> p in candidates.value)
           && exists e :: e in entries && e.destination == p && Foreign(v, e)))
    && (forall p :: p in o.untouched <==>
          (&& candidates.Some? && p !in candidates.value
           && exists e :: e in entries && e.destination == p && Foreign(v, e)))
    && LastFirst(entries, o.restored) && LastFirst(entries, o.alreadyBefore)
    && LastFirst(entries, o.unresolved) && LastFirst(entries, o.untouched)
  }

  /** Every destination that held its after image holds its before image, every other is as it was. */
  ghost predicate PutBack(txn: Txn, v: Namespace, now: Namespace)
  {
    forall e :: e in txn.entries ==>
      Get(now, e.destination)
      == if Get(v, e.destination) == Some(e.after) then Some(e.before) else Get(v, e.destination)
  }

  /** The journal and every stage are where they were, but for the before stages just put back. */
  ghost predicate Retained(txn: Txn, v: Namespace, now: Namespace)
  {
    && Get(now, txn.journal) == Get(v, txn.journal)
    && forall e :: e in txn.entries ==>
         && Get(now, e.afterPath) == Get(v, e.afterPath)
         && Get(now, e.beforePath)
            == if Get(v, e.destination) == Some(e.after) then None else Get(v, e.beforePath)
  }

  ghost predicate Found(txn: Txn, v: Namespace, states: seq<DestinationState>)
  {
    |states| == |txn.entries| && forall k :: 0 <= k < |states| ==> states[k] == StateOf(v, txn.entries[k])
  }

  lemma RolesAreDistinct(txn: Txn)
    requires ValidRoles(txn)
    ensures DistinctDestinations(txn.entries)
  {
  }

  /** Where one destination is listed. */
  lemma ListedOnce(txn: Txn, v: Namespace, states: seq<DestinationState>, candidates: Candidates, p: Path)
    requires ValidRoles(txn) && Found(txn, v, states)
    ensures var o := Tally(txn.entries, states, candidates, 0);
      && (p in o.restored <==>
            exists e :: e in txn.entries && e.destination == p && Get(v, p) == Some(e.after))
      && (p in o.alreadyBefore <==>
            exists e :: e in txn.entries && e.destination == p && Get(v, p) == Some(e.before) != Some(e.after))
      && (p in o.unresolved <==>
            (&& (candidates.Some? ==> p in candidates.value)
             && exists e :: e in txn.entries && e.destination == p && Foreign(v, e)))
      && (p in o.untouched <==>
            (&& candidates.Some? && p !in candidates.value
             && exists e :: e in txn.entries && e.destination == p && Foreign(v, e)))
  {
    RolesAreDistinct(txn);
    if k: nat :| k < |txn.entries| && txn.entries[k].destination == p {
      TallyPartitions(txn.entries, states, candidates, 0, k);
      assert txn.entries[k] in txn.entries && states[k] == StateOf(v, txn.entries[k]);
      forall e | e in txn.entries && e.destination == p ensures e == txn.entries[k] {
        EntriesApart(txn, e, txn.entries[k]);
      }
    } else {
      TallyHolds(txn.entries, states, candidates, 0, p);
    }
  }

  /** Each list holds destinations of entries from the i-th on, the last first. */
  ghost predicate ListedFrom(entries: seq<Entry>, paths: seq<Path>, i: nat)
  {
    && LastFirst(entries, paths)
    && forall p :: p in paths ==> IsFrom(entries, p, i)
  }

  ghost predicate IsFrom(entries: seq<Entry>, p: Path, i: nat)
  {
    exists k :: i <= k < |entries| && entries[k].destination == p
  }

  lemma ListedNext(entries: seq<Entry>, paths: seq<Path>, i: nat)
    requires i < |entries| && ListedFrom(entries, paths, i + 1)
    ensures ListedFrom(entries, paths, i) && ListedFrom(entries, paths + [entries[i].destination], i)
  {
    var more := paths + [entries[i].destination];
    forall p | p in paths ensures IsFrom(entries, p, i) && ListedBefore(entries, p, entries[i].destination) {
      assert IsFrom(entries, p, i + 1);
    }
    forall a, b | 0 <= a < b < |more| ensures ListedBefore(entries, more[a], more[b]) {
      assert more[a] in paths;
      assert b < |paths| ==> ListedBefore(entries, paths[a], paths[b]);
    }
    forall p | p in more ensures IsFrom(entries, p, i) {
      assert p in paths || p == entries[i].destination;
    }
  }

  lemma {:induction false} TallyLastFirst(entries: seq<Entry>, states: seq<DestinationState>,
                                          candidates: Candidates, i: nat)
    requires |states| == |entries| && i <= |entries|
    ensures var o := Tally(entries, states, candidates, i);
      && ListedFrom(entries, o.restored, i) && ListedFrom(entries, o.alreadyBefore, i)
      && ListedFrom(entries, o.unresolved, i) && ListedFrom(entries, o.untouched, i)
    decreases |entries| - i
  {
    if i < |entries| {
      TallyLastFirst(entries, states, candidates, i + 1);
      var o := Tally(entries, states, candidates, i + 1);
      ListedNext(entries, o.restored, i);
      ListedNext(entries, o.alreadyBefore, i);
      ListedNext(entries, o.unresolved, i);
      ListedNext(entries, o.untouched, i);
    }
  }

  /** The tally of what was found is what the namespace says. */
  lemma TallyReports(txn: Txn, v: Namespace, states: seq<DestinationState>, candidates: Candidates)
    requires ValidRoles(txn) && Found(txn, v, states)
    ensures Reported(txn.entries, v, candidates, Tally(txn.entries, states, candidates, 0))
  {
    TallyLastFirst(txn.entries, states, candidates, 0);
    forall p { ListedOnce(txn, v, states, candidates, p); }
  }

  ghost function EntriesFrom(entries: seq<Entry>, states: seq<DestinationState>, state: DestinationState,
                             i: nat): set<Entry>
    requires |states| == |entries|
  {
    set k | i <= k < |entries| && states[k] == state :: entries[k]
  }

  lemma EntriesFromNext(entries: seq<Entry>, states: seq<DestinationState>, state: DestinationState, i: nat)
    requires DistinctDestinations(entries) && |states| == |entries| && i < |entries|
    ensures |EntriesFrom(entries, states, state, i)|
         == |EntriesFrom(entries, states, state, i + 1)| + if states[i] == state then 1 else 0
  {
    var later := EntriesFrom(entries, states, state, i + 1);
    forall k | i < k < |entries| ensures entries[k] != entries[i] {
      assert entries[i].destination != entries[k].destination;
    }
    assert entries[i] !in later;
    assert EntriesFrom(entries, states, state, i)
        == if states[i] == state then later + {entries[i]} else later;
  }

  /** The lengths of the two lists a recovery reports count entries. */
  lemma {:induction false} TallyCounts(entries: seq<Entry>, states: seq<DestinationState>,
                                       candidates: Candidates, i: nat)
    requires DistinctDestinations(entries) && |states| == |entries| && i <= |entries|
    ensures var o := Tally(entries, states, candidates, i);
      && |o.restored| == |EntriesFrom(entries, states, AtAfter, i)|
      && |o.alreadyBefore| == |EntriesFrom(entries, states, AtBefore, i)|
    decreases |entries| - i
  {
    if i == |entries| {
      assert forall state :: EntriesFrom(entries, states, state, i) == {};
    } else {
      TallyCounts(entries, states, candidates, i + 1);
      EntriesFromNext(entries, states, AtAfter, i);
      EntriesFromNext(entries, states, AtBefore, i);
    }
  }

  /** What the view after a rollback holds of each entry. */
  lemma ViewOfEntries(txn: Txn, v: Namespace)
    requires ValidRoles(txn)
    ensures PutBack(txn, v, View(v, txn.entries, 0)) && Retained(txn, v, View(v, txn.entries, 0))
  {
    forall e | e in txn.entries
      ensures Get(View(v, txn.entries, 0), e.destination)
        == if Get(v, e.destination) == Some(e.after) then Some(e.before) else Get(v, e.destination)
      ensures Get(View(v, txn.entries, 0), e.afterPath) == Get(v, e.afterPath)
      ensures Get(View(v, txn.entries, 0), e.beforePath)
        == if Get(v, e.destination) == Some(e.after) then None else Get(v, e.beforePath)
    {
      ViewPointwise(txn, v, 0, e.destination);
      ViewPointwise(txn, v, 0, e.beforePath);
      OffStages(txn, e, e.afterPath);
      ViewPointwise(txn, v, 0, e.afterPath);
    }
    OffJournal(txn);
    ViewPointwise(txn, v, 0, txn.journal);
  }

  lemma OffStages(txn: Txn, e: Entry, p: Path)
    requires ValidRoles(txn) && e in txn.entries && p == e.afterPath
    ensures forall k :: 0 <= k < |txn.entries| ==>
      p != txn.entries[k].destination && p != txn.entries[k].beforePath
  {
    forall k | 0 <= k < |txn.entries|
      ensures p != txn.entries[k].destination && p != txn.entries[k].beforePath
    {
      EntriesApart(txn, e, txn.entries[k]);
      EntriesApart(txn, txn.entries[k], e);
    }
  }

  lemma OffJournal(txn: Txn)
    requires ValidRoles(txn)
    ensures forall k :: 0 <= k < |txn.entries| ==>
      txn.journal != txn.entries[k].destination && txn.journal != txn.entries[k].beforePath
  {
    forall k | 0 <= k < |txn.entries|
      ensures txn.journal != txn.entries[k].destination && txn.journal != txn.entries[k].beforePath
    {
      EntriesApart(txn, txn.entries[k], txn.entries[k]);
    }
  }

  /** An undisturbed rollback reports what was there and puts back what it may. */
  lemma RolledBackReads(txn: Txn, v: Namespace, states: seq<DestinationState>, candidates: Candidates,
                        mid: Disk, now: Disk, still: bool)
    requires ValidRoles(txn)
    requires still ==> Found(txn, v, states) && Visible(mid) == View(v, txn.entries, 0)
    requires still ==> Spares(mid, now, Removable(txn))
    ensures still ==> Reported(txn.entries, v, candidates, Tally(txn.entries, states, candidates, 0))
    ensures still ==> PutBack(txn, v, Visible(now))
    ensures still && now == mid ==> Retained(txn, v, Visible(now))
  {
    if still {
      TallyReports(txn, v, states, candidates);
      ViewOfEntries(txn, v);
    }
  }

  function Size(o: Outcome): nat
  {
    |o.restored| + |o.alreadyBefore| + |o.unresolved| + |o.untouched|
  }

  ghost predicate DistinctDestinations(entries: seq<Entry>)
  {
    forall i, j :: 0 <= i < j < |entries| ==> entries[i].destination != entries[j].destination
  }

  /** The outcome partitions the entries: one place for each, decided by its own state. */
  lemma {:induction false} TallyPartitions(entries: seq<Entry>, states: seq<DestinationState>,
                                           candidates: Candidates, i: nat, k: nat)
    requires DistinctDestinations(entries) && |states| == |entries| && i <= k < |entries|
    ensures var o := Tally(entries, states, candidates, i);
      var p := entries[k].destination;
      && Size(o) == |entries| - i
      && (p in o.restored <==> states[k] == AtAfter)
      && (p in o.alreadyBefore <==> states[k] == AtBefore)
      && (p in o.unresolved <==> states[k] == Other && IsCandidate(candidates, p))
      && (p in o.untouched <==> states[k] == Other && !IsCandidate(candidates, p))
    decreases |entries| - i
  {
    TallySize(entries, states, candidates, i);
    if k > i {
      TallyPartitions(entries, states, candidates, i + 1, k);
    } else {
      TallyHolds(entries, states, candidates, i + 1, entries[k].destination);
    }
  }

  lemma {:induction false} TallySize(entries: seq<Entry>, states: seq<DestinationState>,
                                     candidates: Candidates, i: nat)
    requires |states| == |entries| && i <= |entries|
    ensures Size(Tally(entries, states, candidates, i)) == |entries| - i
    decreases |entries| - i
  {
    if i < |entries| {
      TallySize(entries, states, candidates, i + 1);
    }
  }

  /** An outcome names only destinations of its entries. */
  lemma {:induction false} TallyHolds(entries: seq<Entry>, states: seq<DestinationState>,
                                      candidates: Candidates, i: nat, p: Path)
    requires |states| == |entries|
    requires forall k :: i <= k < |entries| ==> entries[k].destination != p
    ensures var o := Tally(entries, states, candidates, i);
      p !in o.restored && p !in o.alreadyBefore && p !in o.unresolved && p !in o.untouched
    decreases |entries| - i
  {
    if i < |entries| {
      TallyHolds(entries, states, candidates, i + 1, p);
    }
  }

  /** After a rollback every destination that was at its after image is at its before image and
      every other one is as it was; nothing else but consumed before stages has changed. */
  lemma {:induction false} ViewPointwise(txn: Txn, v: Namespace, i: nat, p: Path)
    requires ValidRoles(txn) && i <= |txn.entries|
    ensures var w := View(v, txn.entries, i);
      && (forall k :: i <= k < |txn.entries| && txn.entries[k].destination == p ==>
            Get(w, p) == if StateOf(v, txn.entries[k]) == AtAfter
                         then Some(txn.entries[k].before) else Get(v, p))
      && (forall k :: i <= k < |txn.entries| && txn.entries[k].beforePath == p ==>
            Get(w, p) == if StateOf(v, txn.entries[k]) == AtAfter then None else Get(v, p))
      && ((forall k :: i <= k < |txn.entries| ==>
            p != txn.entries[k].destination && p != txn.entries[k].beforePath)
          ==> Get(w, p) == Get(v, p))
    decreases |txn.entries| - i
  {
    if i == |txn.entries| { return; }
    var e := txn.entries[i];
    ViewPointwise(txn, v, i + 1, p);
    ViewPointwise(txn, v, i + 1, e.destination);
    ApartFromLater(txn, i);
    RestoreViewAt(View(v, txn.entries, i + 1), e, p);
  }

  lemma ApartFromLater(txn: Txn, i: nat)
    requires ValidRoles(txn) && i < |txn.entries|
    ensures var e := txn.entries[i]; forall k :: i < k < |txn.entries| ==>
      && e.destination != txn.entries[k].destination && e.destination != txn.entries[k].beforePath
      && e.beforePath != txn.entries[k].destination && e.beforePath != txn.entries[k].beforePath
    ensures txn.entries[i].destination != txn.entries[i].beforePath
  {
    var e := txn.entries[i];
    forall k | i < k < |txn.entries|
      ensures e.destination != txn.entries[k].destination && e.destination != txn.entries[k].beforePath
      ensures e.beforePath != txn.entries[k].destination && e.beforePath != txn.entries[k].beforePath
    {
      EntriesApart(txn, e, txn.entries[k]);
      EntriesApart(txn, txn.entries[k], e);
    }
    EntriesApart(txn, e, e);
  }

  lemma RestoreViewAt(v: Namespace, e: Entry, p: Path)
    requires e.destination != e.beforePath
    ensures Get(RestoreView(v, e), p)
      == if Get(v, e.destination) != Some(e.after) then Get(v, p)
         else if p == e.destination then Some(e.before) else if p == e.beforePath then None else Get(v, p)
  {
  }

  /** Rolling back twice is rolling back once. What was unresolved is unresolved again, what was
      restored is at its before image; only a destination whose two images are equal still counts
      as holding its after image, and it is then stuck. */
  lemma RollbackConverges(txn: Txn, v: Namespace)
    requires ValidRoles(txn)
    ensures var w := View(v, txn.entries, 0);
      && View(w, txn.entries, 0) == w
      && forall e :: e in txn.entries ==>
           && StateOf(w, e) == (if StateOf(v, e) == AtAfter && e.before != e.after then AtBefore
                                else StateOf(v, e))
           && (StateOf(w, e) == AtAfter ==> Stuck(w, e))
  {
    var w := View(v, txn.entries, 0);
    forall e | e in txn.entries
      ensures StateOf(w, e) == (if StateOf(v, e) == AtAfter && e.before != e.after then AtBefore
                                else StateOf(v, e))
      ensures StateOf(w, e) == AtAfter ==> Stuck(w, e)
      ensures RestoreView(w, e) == w
    {
      ViewPointwise(txn, v, 0, e.destination);
      ViewPointwise(txn, v, 0, e.beforePath);
      EntriesApart(txn, e, e);
    }
    NothingToRestore(w, txn.entries, 0);
  }

  lemma {:induction false} NothingToRestore(v: Namespace, entries: seq<Entry>, i: nat)
    requires forall e :: e in entries ==> RestoreView(v, e) == v
    ensures View(v, entries, i) == v
    decreases |entries| - i
  {
    if i < |entries| {
      assert entries[i] in entries;
      NothingToRestore(v, entries, i + 1);
    }
  }
}
