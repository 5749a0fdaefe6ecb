/** Reading and validating the journal, authenticating staged images, and removing them with
    the journal last. */
module Cleanup {
  import opened Storage
  import opened Wrappers
  import opened Persistence
  import opened JournalModel

  datatype JournalStatus = Absent | Invalid | Exact

  /** Classify what is at the canonical journal path against the exact bytes expected there. */
  method ExactJournalStatus(fs: FileSystem, journal: Path, bytes: Content)
    returns (crashed: bool, status: JournalStatus)
    requires fs.Valid()
    modifies fs`faults
    ensures status.Exact? ==> Get(Visible(fs.disk), journal) == Some(bytes)
    ensures status.Absent? ==> journal !in Visible(fs.disk)
    ensures old(fs.Calm()) ==> !crashed && fs.Calm()
    ensures old(fs.Calm()) && Get(Visible(fs.disk), journal) == Some(bytes) ==> status.Exact?
    // one read decides: it fails, or it tells
    ensures old(fs.Steady()) ==> fs.Since(old(fs.Trouble()), crashed)
    ensures fs.faults == Rest(old(fs.faults)) && (crashed <==> StatusOf(Head(old(fs.faults))).Crashed?)
    ensures !Head(old(fs.faults)).Pass? ==> status.Invalid?
    ensures Head(old(fs.faults)).Pass? ==>
      && (status.Exact? <==> Get(Visible(fs.disk), journal) == Some(bytes))
      && (status.Absent? <==> journal !in Visible(fs.disk))
  {
    var s, content := fs.Read(journal);
    crashed := s.Crashed?;
    status := if !s.Ok? then Invalid
              else if content.None? then Absent
              else if content.value == bytes then Exact else Invalid;
  }

  // ---- path roles --------------------------------------------------------------------

  /** Reject aliases between destinations, artifacts and the journal, and misnamed artifacts. */
  method ValidatePathRoles(txn: Txn) returns (ok: bool)
    ensures ok <==> ValidRoles(txn)
  {
    var n := |txn.entries|;
    var destinations: set<Path> := {};
    for i := 0 to n
      invariant destinations == set k | 0 <= k < i :: txn.entries[k].destination
      invariant txn.journal !in destinations
      invariant forall k, l :: 0 <= k < l < i ==>
        txn.entries[k].destination != txn.entries[l].destination
    {
      var d := txn.entries[i].destination;
      if d == txn.journal || d in destinations { return false; }
      destinations := destinations + {d};
    }
    var staged := StagedArtifacts(txn.entries);
    var artifacts: set<Path> := {};
    for k := 0 to |staged|
      invariant artifacts == set l | 0 <= l < k :: staged[l].path
      invariant txn.journal !in artifacts && artifacts !! destinations
      invariant forall l, l' :: 0 <= l < l' < k ==> staged[l].path != staged[l'].path
    {
      var p := staged[k].path;
      if p == txn.journal || p in destinations || p in artifacts { return false; }
      artifacts := artifacts + {p};
    }
    assert forall k, i :: 0 <= k < |staged| && 0 <= i < n ==>
      staged[k].path != txn.entries[i].destination by {
      forall k, i | 0 <= k < |staged| && 0 <= i < n
        ensures staged[k].path != txn.entries[i].destination
      {
        assert staged[k].path in artifacts && txn.entries[i].destination in destinations;
      }
    }
    for i := 0 to n
      invariant forall k :: 0 <= k < i ==> NamesMatch(txn.entries[k])
    {
      if !NamesMatch(txn.entries[i]) { return false; }
    }
    return true;
  }

  /** Read the journal and refuse anything but a well-formed one with proper path roles. */
  method LoadJournal(fs: FileSystem, journal: Path)
    returns (s: Status, state: JournalState, txn: Txn)
    requires fs.Valid()
    modifies fs`faults
    ensures s.Ok? ==> txn.journal == journal && ValidRoles(txn)
    ensures s.Ok? ==> Get(Visible(fs.disk), journal) == Some(BytesOf(txn, state))
    ensures !s.Exists?
    ensures old(fs.Calm()) ==> !s.Crashed? && fs.Calm()
    ensures old(fs.Steady()) ==> fs.Since(old(fs.Trouble()), s.Crashed?)
    ensures Head(old(fs.faults)).Pass? && s.Failed? ==>
      !exists state', txn': Txn :: txn'.journal == journal && ValidRoles(txn')
                                && Get(Visible(fs.disk), journal) == Some(BytesOf(txn', state'))
    ensures fs.faults == Rest(old(fs.faults)) && (Head(old(fs.faults)).Pass? ==> !s.Crashed?)
    ensures s.Ok? && old(fs.Steady()) ==> fs.Met(old(fs.Trouble()), Ok)
  {
    var content;
    state, txn := Prepared, Txn(journal, []);
    s, content := fs.Read(journal);
    if !s.Ok? { return; }
    if content.None? || content.value.Document? { return Failed, state, txn; }
    state, txn := content.value.state, Txn(journal, content.value.entries);
    var ok := ValidatePathRoles(txn);
    if !ok {
      s := Failed;
      forall state', txn': Txn | txn'.journal == journal
        && Get(Visible(fs.disk), journal) == Some(BytesOf(txn', state'))
        ensures !ValidRoles(txn')
      {
        assert txn' == txn;
      }
    }
  }

  // ---- stages ------------------------------------------------------------------------

  ghost predicate Authentic(v: Namespace, a: Artifact)
  {
    Get(v, a.path) in {None, Some(a.image)}
  }

  /** Whether a stage is there with its recorded digest; a stage with another one, or one
      that cannot be read, is unsafe. */
  method Authenticate(fs: FileSystem, a: Artifact) returns (s: Status, present: bool)
    requires fs.Valid()
    modifies fs`faults
    ensures s.Ok? ==> Get(Visible(fs.disk), a.path) == if present then Some(a.image) else None
    ensures !s.Exists?
    ensures old(fs.Calm()) ==> fs.Calm() && (s.Ok? <==> Authentic(Visible(fs.disk), a)) && !s.Crashed?
    ensures old(fs.Steady()) ==> fs.Since(old(fs.Trouble()), s.Crashed?)
    ensures old(fs.Steady()) && Authentic(Visible(fs.disk), a) ==> fs.Met(old(fs.Trouble()), s)
    ensures fs.faults == Rest(old(fs.faults))
    ensures Head(old(fs.faults)).Pass? && Authentic(Visible(fs.disk), a) ==> s.Ok?
  {
    var content;
    s, content := fs.Read(a.path);
    present := content.Some?;
    if s.Ok? && present && content.value != a.image {
      s := Failed;
    }
  }

  /** Authenticate every present stage before anything is changed. */
  method AuthenticateAll(fs: FileSystem, staged: seq<Artifact>) returns (s: Status)
    requires fs.Valid()
    modifies fs`faults
    ensures s.Ok? ==> forall a :: a in staged ==> Authentic(Visible(fs.disk), a)
    ensures !s.Exists?
    ensures old(fs.Steady()) && (forall a :: a in staged ==> Authentic(Visible(fs.disk), a))
      ==> fs.Met(old(fs.Trouble()), s)
    ensures old(fs.Steady()) ==> fs.Since(old(fs.Trouble()), s.Crashed?)
  {
    for k := 0 to |staged|
      invariant fs.Valid()
      invariant forall l :: 0 <= l < k ==> Authentic(Visible(fs.disk), staged[l])
      invariant old(fs.Steady()) ==> fs.Met(old(fs.Trouble()), Ok)
    {
      var present;
      assert staged[k] in staged;
      s, present := Authenticate(fs, staged[k]);
      if !s.Ok? { return; }
    }
    s := Ok;
  }

  /** After a failed removal: retry only the directory flush, and only if the path is gone. */
  method ResyncAfterUnlink(fs: FileSystem, p: Path, ghost claim: Claim)
    returns (crashed: bool, healed: bool)
    requires fs.Valid() && Keeps(fs.disk, claim)
    modifies fs`disk, fs`faults
    ensures Keeps(fs.disk, claim) && Spares(old(fs.disk), fs.disk, {})
    ensures healed ==> p !in Visible(fs.disk) && DirectorySettled(fs.disk, p.dir)
    ensures healed ==> !crashed
    // nothing is flushed for a path that is still there, and a last look confirms that it is gone
    ensures p in Visible(old(fs.disk)) ==> !healed && fs.disk == old(fs.disk)
    ensures p !in Visible(old(fs.disk)) && Head(old(fs.faults)).Pass? && Head(Later(old(fs.faults), 1)).Fail? ==>
      !crashed && !healed && fs.faults == Later(old(fs.faults), 2)
    ensures p !in Visible(old(fs.disk)) && Fine(old(fs.faults), 2) ==>
      (healed <==> Head(Later(old(fs.faults), 2)).Pass?) && fs.faults == Later(old(fs.faults), 3)
    ensures old(fs.Calm()) ==> fs.Calm() && !crashed && (healed <==> p !in Visible(old(fs.disk)))
    ensures old(fs.Steady()) ==> fs.Since(old(fs.Trouble()), crashed)
    ensures old(fs.Steady()) && fs.faults != [] ==> (healed <==> p !in Visible(old(fs.disk)))
  {
    var s, content := fs.Read(p);
    if s.Crashed? { return true, false; }
    if !s.Ok? || content.Some? { return false, false; }
    s := fs.SyncDirectory(p.dir, claim);
    if !s.Ok? { return s.Crashed?, false; }
    s, content := fs.Read(p);
    return s.Crashed?, s.Ok? && content.None?;
  }

  /** Make the absence of a stage durable, and look for it once more. */
  method ConfirmAbsent(fs: FileSystem, p: Path, ghost claim: Claim) returns (s: Status)
    requires fs.Valid() && Keeps(fs.disk, claim) && p !in Visible(fs.disk)
    modifies fs`disk, fs`faults
    ensures Keeps(fs.disk, claim) && Spares(old(fs.disk), fs.disk, {}) && !s.Exists?
    ensures s.Ok? ==> p !in Visible(fs.disk) && DirectorySettled(fs.disk, p.dir)
    ensures Head(old(fs.faults)).Pass? ==> s == StatusOf(Head(Later(old(fs.faults), 1)))
    ensures old(fs.Steady()) ==> fs.Met(old(fs.Trouble()), s)
  {
    s := fs.SyncDirectory(p.dir, claim);
    if !s.Ok? { return; }
    var content;
    s, content := fs.Read(p);
    return if s.Ok? && content.Some? then Failed else s;
  }

  /** Remove one authenticated stage. Its absence, too, is made durable. */
  method CleanupStagedArtifact(fs: FileSystem, a: Artifact, ghost claim: Claim) returns (s: Status)
    requires fs.Valid() && Keeps(fs.disk, claim)
    requires Get(Visible(fs.disk), a.path) == Some(a.image) ==>
      Keeps(Append(fs.disk, Drop(a.path)), claim)
    modifies fs`disk, fs`faults, fs`replaced
    ensures Keeps(fs.disk, claim) && Spares(old(fs.disk), fs.disk, {a.path})
    ensures fs.replaced == old(fs.replaced) && !s.Exists?
    ensures s.Ok? ==> a.path !in Visible(fs.disk) && DirectorySettled(fs.disk, a.path.dir)
    ensures Get(Visible(old(fs.disk)), a.path) != Some(a.image) ==>
      Get(Visible(fs.disk), a.path) == Get(Visible(old(fs.disk)), a.path)
    ensures old(fs.Steady()) && Authentic(Visible(old(fs.disk)), a) ==> fs.Survived(old(fs.Trouble()), s)
    // an absent stage is flushed and looked for once more
    ensures a.path !in Visible(old(fs.disk)) && Fine(old(fs.faults), 2) ==>
      s == StatusOf(Head(Later(old(fs.faults), 2)))
    // one bad step is healed if the stage is gone all the same
    ensures old(fs.Steady()) && s.Failed? && a.path in Visible(old(fs.disk)) ==> a.path in Visible(fs.disk)
    ensures old(fs.Calm()) && !Authentic(Visible(old(fs.disk)), a) ==> s.Failed? && fs.Calm()
  {
    var present;
    s, present := Authenticate(fs, a);
    if !s.Ok? { return; }
    if !present {
      s := ConfirmAbsent(fs, a.path, claim);
      return;
    }
    s := fs.DurableUnlink(a.path, claim);
    if s.Failed? {
      var crashed, healed := ResyncAfterUnlink(fs, a.path, claim);
      s := if crashed then Crashed else if healed then Ok else Failed;
    }
  }

  // ---- the journal, last -------------------------------------------------------------

  /** Nothing but the journal, and a helper stage beside it, has changed. */
  ghost predicate SparesAllButJournal(a: Disk, b: Disk, journal: Path)
  {
    Spares(a, b, {journal})
    || exists h :: Drawable(journal.dir, JournalStage(0), h) && h !in Visible(a) && Spares(a, b, {journal, h})
  }

  lemma SparesThrough(a: Disk, b: Disk, c: Disk, journal: Path)
    requires journal.name.JournalFile? && Spares(a, b, {journal}) && SparesAllButJournal(b, c, journal)
    ensures SparesAllButJournal(a, c, journal)
  {
    if !Spares(b, c, {journal}) {
      var h :| Drawable(journal.dir, JournalStage(0), h) && h !in Visible(b) && Spares(b, c, {journal, h});
      assert Get(Visible(b), h) == Get(Visible(a), h);
    }
  }

  /** Put the exact journal back, but only where nothing is at its path. */
  method RestoreJournal(fs: FileSystem, txn: Txn, state: JournalState)
    returns (crashed: bool, restored: bool)
    requires fs.Valid() && ProperNames(txn) && Keeps(fs.disk, In(Closing(state), txn, fs.outside))
    modifies fs`disk, fs`faults, fs`replaced
    ensures Keeps(fs.disk, In(Closing(state), txn, fs.outside)) && fs.replaced == old(fs.replaced)
    ensures restored ==> Get(Visible(fs.disk), txn.journal) == Some(BytesOf(txn, state))
    ensures txn.journal in Visible(old(fs.disk)) ==>
      Get(Visible(fs.disk), txn.journal) == Get(Visible(old(fs.disk)), txn.journal)
    ensures SparesAllButJournal(old(fs.disk), fs.disk, txn.journal)
    ensures old(fs.Steady()) && Get(Visible(old(fs.disk)), txn.journal) in {None, Some(BytesOf(txn, state))} ==>
      fs.Since(old(fs.Trouble()), crashed) && (old(fs.Trouble()).Ok? || fs.faults != [] ==> restored)
    ensures restored ==> !crashed
  {
    var status;
    crashed, status := ExactJournalStatus(fs, txn.journal, BytesOf(txn, state));
    if crashed || !status.Absent? { return crashed, status.Exact?; }
    ghost var claim := In(Closing(state), txn, fs.outside);
    HelpersIgnored(Closing(state), txn, fs.outside, fs.disk);
    JournalStepAccepted(Closing(state), txn, fs.outside, Put(txn.journal, BytesOf(txn, state)), state);
    var s, _ := fs.AtomicCreateBytes(txn.journal, BytesOf(txn, state), claim);
    if s.Crashed? { return true, false; }
    crashed, status := ExactJournalStatus(fs, txn.journal, BytesOf(txn, state));
    return crashed, status.Exact?;
  }

  /** A removal, after one read, that goes well until the flush after it fails. */
  predicate LosesItsFlush(faults: seq<Fault>) {
    Fine(faults, 2) && Head(Later(faults, 2)).Fail?
  }

  /** Remove the journal, and only if it is exactly the one this transaction published. */
  method CleanupJournal(fs: FileSystem, txn: Txn, state: JournalState)
    returns (s: Status)
    requires fs.Valid() && ProperNames(txn) && Keeps(fs.disk, In(Closing(state), txn, fs.outside))
    modifies fs`disk, fs`faults, fs`replaced
    ensures Keeps(fs.disk, In(Closing(state), txn, fs.outside)) && fs.replaced == old(fs.replaced)
    ensures s.Ok? ==> txn.journal !in Visible(fs.disk)
    ensures s.Ok? ==> DirectorySettled(fs.disk, txn.journal.dir)
    ensures s.Ok? ==> Spares(old(fs.disk), fs.disk, {txn.journal})
    ensures SparesAllButJournal(old(fs.disk), fs.disk, txn.journal)
    ensures !s.Exists?
    ensures Get(Visible(old(fs.disk)), txn.journal) != Some(BytesOf(txn, state)) ==>
      !s.Ok? && fs.disk == old(fs.disk)
    // a flush that fails is made up for, and if that fails too the journal is put back
    ensures (&& LosesItsFlush(old(fs.faults)) && Fine(Later(old(fs.faults), 3), 3)
             && Get(Visible(old(fs.disk)), txn.journal) == Some(BytesOf(txn, state))) ==> s.Ok?
    ensures (&& LosesItsFlush(old(fs.faults)) && Head(Later(old(fs.faults), 3)).Pass?
             && Head(Later(old(fs.faults), 4)).Fail? && Later(old(fs.faults), 5) == [] && old(fs.edits) == []
             && Get(Visible(old(fs.disk)), txn.journal) == Some(BytesOf(txn, state)))
      ==> s.Failed? && Get(Visible(fs.disk), txn.journal) == Some(BytesOf(txn, state))
    // one bad step is healed, or leaves the journal as it was
    ensures old(fs.Steady()) && Get(Visible(old(fs.disk)), txn.journal) == Some(BytesOf(txn, state)) ==>
      fs.Survived(old(fs.Trouble()), s)
      && (s.Failed? ==> Get(Visible(fs.disk), txn.journal) == Some(BytesOf(txn, state)))
  {
    var crashed, status := ExactJournalStatus(fs, txn.journal, BytesOf(txn, state));
    if crashed { return Crashed; }
    if !status.Exact? { return Failed; }
    ghost var claim := In(Closing(state), txn, fs.outside);
    JournalStepAccepted(Closing(state), txn, fs.outside, Drop(txn.journal), state);
    AcceptedAppend(fs.disk, Drop(txn.journal), claim);
    s := fs.DurableUnlink(txn.journal, claim);
    if s.Failed? {
      ghost var mid := fs.disk;
      s := ResyncOrRestore(fs, txn, state);
      SparesThrough(old(fs.disk), mid, fs.disk, txn.journal);
    }
  }

  /** The removal of the journal failed: it is gone all the same, or it is put back. */
  method ResyncOrRestore(fs: FileSystem, txn: Txn, state: JournalState) returns (s: Status)
    requires fs.Valid() && ProperNames(txn) && Keeps(fs.disk, In(Closing(state), txn, fs.outside))
    modifies fs`disk, fs`faults, fs`replaced
    ensures Keeps(fs.disk, In(Closing(state), txn, fs.outside)) && fs.replaced == old(fs.replaced)
    ensures s.Ok? ==> txn.journal !in Visible(fs.disk) && DirectorySettled(fs.disk, txn.journal.dir)
    ensures s.Ok? ==> Spares(old(fs.disk), fs.disk, {txn.journal})
    ensures SparesAllButJournal(old(fs.disk), fs.disk, txn.journal)
    ensures !s.Exists?
    // a journal that is gone stays gone, and one that is there stays there
    ensures txn.journal !in Visible(old(fs.disk)) && Fine(old(fs.faults), 3) ==> s.Ok?
    ensures txn.journal in Visible(old(fs.disk)) ==>
      !s.Ok? && Get(Visible(fs.disk), txn.journal) == Get(Visible(old(fs.disk)), txn.journal)
    ensures old(fs.Steady()) && Get(Visible(old(fs.disk)), txn.journal) in {None, Some(BytesOf(txn, state))} ==>
      && fs.Since(old(fs.Trouble()), s.Crashed?)
      && (s.Failed? && (old(fs.Trouble()).Ok? || fs.faults != []) ==>
            Get(Visible(fs.disk), txn.journal) == Some(BytesOf(txn, state)))
    // one whose flush fails again is put back
    ensures (&& txn.journal !in Visible(old(fs.disk)) && Head(old(fs.faults)).Pass?
             && Head(Later(old(fs.faults), 1)).Fail? && Later(old(fs.faults), 2) == [] && old(fs.edits) == [])
      ==> s.Failed? && Get(Visible(fs.disk), txn.journal) == Some(BytesOf(txn, state))
  {
    ghost var start := fs.disk;
    var crashed, healed := ResyncAfterUnlink(fs, txn.journal, In(Closing(state), txn, fs.outside));
    if crashed { return Crashed; }
    if healed { return Ok; }
    ghost var mid := fs.disk;
    crashed, healed := RestoreJournal(fs, txn, state);
    SparesThrough(start, mid, fs.disk, txn.journal);
    s := if crashed then Crashed else Failed;
  }

  /** The transaction left nothing behind: no crash brings back the journal, a stage, or a
      destination that is not at the image `state` stands for. */
  ghost predicate Finished(d: Disk, txn: Txn, state: JournalState, outside: set<Path>)
  {
    txn.journal in outside ||
    (&& Held(d, txn.journal, None, outside)
     && forall e :: e in txn.entries ==> Done(d, e, state, outside))
  }

  /** Every path the cleanup may remove. */
  ghost function Removable(txn: Txn): (r: set<Path>)
    ensures txn.journal in r
    ensures forall e :: e in txn.entries ==> e.beforePath in r && e.afterPath in r
    ensures forall a :: a in StagedArtifacts(txn.entries) ==> a.path in r
    ensures ValidRoles(txn) ==> forall e :: e in txn.entries ==> e.destination !in r
  {
    var staged := StagedArtifacts(txn.entries);
    var r := {txn.journal} + set k | 0 <= k < |staged| :: staged[k].path;
    assert forall e :: e in txn.entries ==> e.beforePath in r && e.afterPath in r by {
      forall e | e in txn.entries ensures e.beforePath in r && e.afterPath in r {
        var i :| 0 <= i < |txn.entries| && txn.entries[i] == e;
        assert staged[2 * i].path == e.beforePath && staged[2 * i + 1].path == e.afterPath;
      }
    }
    r
  }

  ghost predicate Synced(txn: Txn, outside: set<Path>, d: Disk, k: nat)
  {
    var staged := StagedArtifacts(txn.entries);
    && (forall l :: 0 <= l < k && l < |staged| ==> Held(d, staged[l].path, None, outside))
    && (forall i :: 0 <= i < |txn.entries| && 2 * i < k ==>
          txn.entries[i].destination in outside || Settled(d, txn.entries[i].destination))
  }

  lemma SyncedSpared(txn: Txn, outside: set<Path>, a: Disk, b: Disk, k: nat, touched: set<Path>)
    requires ValidRoles(txn) && Synced(txn, outside, a, k) && Spares(a, b, touched)
    requires touched <= outside || (k < 2 * |txn.entries|
      && touched == {StagedArtifacts(txn.entries)[k].path})
    ensures Synced(txn, outside, b, k)
  {
    var staged := StagedArtifacts(txn.entries);
    forall l | 0 <= l < k && l < |staged| ensures Held(b, staged[l].path, None, outside) {
      assert Held(a, staged[l].path, None, outside);
      assert staged[l].path in outside || staged[l].path !in touched;
    }
    forall i | 0 <= i < |txn.entries| && 2 * i < k
      ensures txn.entries[i].destination in outside || Settled(b, txn.entries[i].destination)
    {
      assert txn.entries[i].destination in outside || txn.entries[i].destination !in touched;
    }
  }

  ghost predicate AllBefore(txn: Txn, outside: set<Path>, v: Namespace)
  {
    forall e :: e in txn.entries ==> BeforeAt(e, outside, v)
  }

  ghost predicate AllAuthentic(txn: Txn, v: Namespace)
  {
    forall a :: a in StagedArtifacts(txn.entries) ==> Authentic(v, a)
  }

  /** The stage at position k is gone and its directory flushed, which settles the
      destination beside it too. */
  lemma SyncedNext(txn: Txn, outside: set<Path>, d: Disk, k: nat)
    requires ValidRoles(txn) && Synced(txn, outside, d, k) && k < 2 * |txn.entries|
    requires var p := StagedArtifacts(txn.entries)[k].path;
      p !in Visible(d) && DirectorySettled(d, p.dir)
    ensures Synced(txn, outside, d, k + 1)
  {
    var staged := StagedArtifacts(txn.entries);
    assert Held(d, staged[k].path, None, outside);
    forall i | 0 <= i < |txn.entries| && 2 * i < k + 1
      ensures txn.entries[i].destination in outside || Settled(d, txn.entries[i].destination)
    {
      if 2 * i == k {
        EntriesApart(txn, txn.entries[i], txn.entries[i]);
        assert staged[k].path.dir == txn.entries[i].destination.dir;
      }
    }
  }

  lemma AllBeforeSpared(txn: Txn, outside: set<Path>, a: Disk, b: Disk, touched: set<Path>)
    requires ValidRoles(txn) && AllBefore(txn, outside, Visible(a)) && Spares(a, b, touched)
    requires touched <= outside + Removable(txn)
    ensures AllBefore(txn, outside, Visible(b))
  {
    forall e | e in txn.entries ensures BeforeAt(e, outside, Visible(b)) {
      assert BeforeAt(e, outside, Visible(a));
    }
  }

  /** At most one step to come goes wrong, and nobody else edits the journal or a stage. */
  ghost predicate Smooth(fs: FileSystem, txn: Txn)
    reads fs
  {
    fs.Steady() && Removable(txn) !! fs.Editable()
  }

  /** What others do elsewhere leaves every stage as it was. */
  lemma AuthenticBeside(txn: Txn, a: Disk, b: Disk, touched: set<Path>)
    requires Spares(a, b, touched) && Removable(txn) !! touched
    ensures AllAuthentic(txn, Visible(a)) ==> AllAuthentic(txn, Visible(b))
  {
    if AllAuthentic(txn, Visible(a)) {
      forall s | s in StagedArtifacts(txn.entries) ensures Authentic(Visible(b), s) {
        assert Authentic(Visible(a), s) && s.path in Removable(txn);
      }
    }
  }

  lemma AuthenticSpared(txn: Txn, a: Disk, b: Disk, p: Path)
    requires AllAuthentic(txn, Visible(a)) && Spares(a, b, {p}) && p !in Visible(b)
    ensures AllAuthentic(txn, Visible(b))
  {
    forall s | s in StagedArtifacts(txn.entries) ensures Authentic(Visible(b), s) {
      assert Authentic(Visible(a), s);
    }
  }

  /** Nothing but the journal, the stages and a helper stage beside the journal has changed. */
  ghost predicate SparesAround(txn: Txn, a: Disk, b: Disk)
  {
    exists h :: Drawable(txn.journal.dir, JournalStage(0), h) && h !in Visible(a)
             && Spares(a, b, Removable(txn) + {h})
  }

  lemma ButJournalIsAround(txn: Txn, a: Disk, b: Disk)
    requires SparesAllButJournal(a, b, txn.journal)
    ensures SparesAround(txn, a, b)
  {
    if Spares(a, b, {txn.journal}) {
      var bound := RandomsAreBounded(Visible(a).Keys);
      var h := Draw(txn.journal.dir, JournalStage(0), bound);
      assert h !in Visible(a) && Spares(a, b, Removable(txn) + {h});
    } else {
      var h :| Drawable(txn.journal.dir, JournalStage(0), h) && h !in Visible(a) && Spares(a, b, {txn.journal, h});
      assert Spares(a, b, Removable(txn) + {h});
    }
  }

  lemma StagesThenJournal(txn: Txn, a: Disk, b: Disk, c: Disk)
    requires Spares(a, b, Removable(txn) - {txn.journal}) && SparesAllButJournal(b, c, txn.journal)
    requires ValidRoles(txn)
    ensures SparesAround(txn, a, c)
  {
    ButJournalIsAround(txn, b, c);
    var h :| Drawable(txn.journal.dir, JournalStage(0), h) && h !in Visible(b) && Spares(b, c, Removable(txn) + {h});
    NoStageIsHelper(txn, h);
    assert Get(Visible(b), h) == Get(Visible(a), h);
    SparesTwice(a, b, c, Removable(txn) + {h}, Removable(txn) + {h});
  }

  lemma NoStageIsHelper(txn: Txn, h: Path)
    requires ValidRoles(txn) && h.name.JournalStage?
    ensures h !in Removable(txn) - {txn.journal}
  {
    var staged := StagedArtifacts(txn.entries);
    forall k | 0 <= k < |staged| ensures staged[k].path != h {
      assert k == 2 * (k / 2) || k == 2 * (k / 2) + 1;
      EntriesApart(txn, txn.entries[k / 2], txn.entries[k / 2]);
    }
  }

  /** One iteration: another process may run, then one stage goes. */
  method CleanupNext(fs: FileSystem, txn: Txn, k: nat, ghost phase: Phase) returns (s: Status)
    requires fs.Valid() && ValidRoles(txn) && txn.journal.name.JournalFile?
    requires k < 2 * |txn.entries| && Keeps(fs.disk, In(phase, txn, fs.outside))
    requires phase in {Staging, Rolling, Clearing}
    requires phase.Rolling? && txn.journal !in fs.outside ==>
      AllBefore(txn, fs.outside, Visible(fs.disk))
    requires Synced(txn, fs.outside, fs.disk, k)
    modifies fs`disk, fs`faults, fs`edits, fs`replaced
    ensures fs.Valid() && Keeps(fs.disk, In(phase, txn, fs.outside))
    ensures phase.Rolling? && txn.journal !in fs.outside ==>
      AllBefore(txn, fs.outside, Visible(fs.disk))
    ensures s.Ok? ==> Synced(txn, fs.outside, fs.disk, k + 1)
    ensures fs.replaced == old(fs.replaced) && !s.Exists? && fs.Editable() <= old(fs.Editable())
    ensures old(fs.edits) == [] ==> fs.edits == []
    ensures Spares(old(fs.disk), fs.disk,
                   old(fs.Editable()) + {StagedArtifacts(txn.entries)[k].path})
    ensures old(Smooth(fs, txn)) && AllAuthentic(txn, Visible(old(fs.disk))) ==>
      fs.Survived(old(fs.Trouble()), s) && (s.Ok? ==> AllAuthentic(txn, Visible(fs.disk)))
    ensures old(fs.edits) != [] ==> fs.edits == old(fs.edits)[1..]
  {
    ghost var claim := In(phase, txn, fs.outside);
    ghost var start, editable := fs.disk, fs.Editable();
    OutsideIgnored(phase, txn, fs.outside);
    fs.Environment(claim);
    ghost var mid := fs.disk;
    SyncedSpared(txn, fs.outside, start, mid, k, editable);
    if phase.Rolling? && txn.journal !in fs.outside {
      AllBeforeSpared(txn, fs.outside, start, mid, editable);
    }
    var a := StagedArtifacts(txn.entries)[k];
    DropNext(txn, fs.outside, phase, mid, k);
    s := CleanupStagedArtifact(fs, a, claim);
    SyncedSpared(txn, fs.outside, mid, fs.disk, k, {a.path});
    assert a in StagedArtifacts(txn.entries);
    if phase.Rolling? && txn.journal !in fs.outside {
      AllBeforeSpared(txn, fs.outside, mid, fs.disk, {a.path});
    }
    if s.Ok? {
      SyncedNext(txn, fs.outside, fs.disk, k);
    }
    if old(Smooth(fs, txn)) && AllAuthentic(txn, Visible(start)) {
      AuthenticBeside(txn, start, mid, editable);
      assert Authentic(Visible(mid), a);
      if s.Ok? { AuthenticSpared(txn, mid, fs.disk, a.path); }
    }
  }

  lemma DropNext(txn: Txn, outside: set<Path>, phase: Phase, d: Disk, k: nat)
    requires ValidRoles(txn) && k < 2 * |txn.entries| && Keeps(d, In(phase, txn, outside))
    requires phase in {Staging, Rolling, Clearing}
    requires phase.Rolling? && txn.journal !in outside ==> AllBefore(txn, outside, Visible(d))
    ensures var p := StagedArtifacts(txn.entries)[k].path;
      p in Visible(d) ==> Keeps(Append(d, Drop(p)), In(phase, txn, outside))
  {
    var a := StagedArtifacts(txn.entries)[k];
    var e := txn.entries[k / 2];
    assert e in txn.entries;
    assert k == 2 * (k / 2) || k == 2 * (k / 2) + 1;
    if a.path in Visible(d) {
      DropStageKeeps(phase, txn, outside, d, e, a.path);
    }
  }

  /** Durably remove every staged image. */
  method RemoveStages(fs: FileSystem, txn: Txn, ghost phase: Phase) returns (s: Status)
    requires fs.Valid() && ValidRoles(txn) && txn.journal.name.JournalFile?
    requires Keeps(fs.disk, In(phase, txn, fs.outside)) && phase in {Staging, Rolling, Clearing}
    requires phase.Rolling? && txn.journal !in fs.outside ==>
      AllBefore(txn, fs.outside, Visible(fs.disk))
    modifies fs`disk, fs`faults, fs`edits, fs`replaced
    ensures fs.Valid() && Keeps(fs.disk, In(phase, txn, fs.outside))
    ensures phase.Rolling? && txn.journal !in fs.outside ==>
      AllBefore(txn, fs.outside, Visible(fs.disk))
    ensures s.Ok? ==> Synced(txn, fs.outside, fs.disk, 2 * |txn.entries|)
    ensures fs.replaced == old(fs.replaced) && !s.Exists? && fs.Editable() <= old(fs.Editable())
    ensures old(fs.edits) == [] ==> fs.edits == []
    ensures Spares(old(fs.disk), fs.disk, old(fs.Editable()) + (Removable(txn) - {txn.journal}))
    ensures old(Smooth(fs, txn)) && AllAuthentic(txn, Visible(old(fs.disk))) ==> fs.Survived(old(fs.Trouble()), s)
  {
    for k := 0 to 2 * |txn.entries|
      invariant fs.Valid() && Keeps(fs.disk, In(phase, txn, fs.outside))
      invariant phase.Rolling? && txn.journal !in fs.outside ==>
        AllBefore(txn, fs.outside, Visible(fs.disk))
      invariant Synced(txn, fs.outside, fs.disk, k)
      invariant fs.replaced == old(fs.replaced) && fs.Editable() <= old(fs.Editable())
      invariant old(fs.edits) == [] ==> fs.edits == []
      invariant Spares(old(fs.disk), fs.disk, old(fs.Editable()) + (Removable(txn) - {txn.journal}))
      invariant old(Smooth(fs, txn)) && AllAuthentic(txn, Visible(old(fs.disk))) ==>
        fs.Survived(old(fs.Trouble()), Ok) && AllAuthentic(txn, Visible(fs.disk))
    {
      ghost var here, editable := fs.disk, fs.Editable();
      ghost var p := StagedArtifacts(txn.entries)[k].path;
      assert p in Removable(txn) - {txn.journal} by {
        assert StagedArtifacts(txn.entries)[k] in StagedArtifacts(txn.entries);
      }
      s := CleanupNext(fs, txn, k, phase);
      SparesTwice(old(fs.disk), here, fs.disk, old(fs.Editable()) + (Removable(txn) - {txn.journal}),
                  editable + {p});
      if !s.Ok? { return; }
    }
    s := Ok;
  }

  lemma SparesTwice(a: Disk, b: Disk, c: Disk, touched: set<Path>, more: set<Path>)
    requires Spares(a, b, touched) && Spares(b, c, more) && more <= touched
    ensures Spares(a, c, touched)
  {
  }

  /** Durably remove every staged image and then, last, the journal. */
  method CleanupTransactionArtifacts(fs: FileSystem, txn: Txn, state: JournalState,
                                     ghost phase: Phase)
    returns (s: Status)
    requires fs.Valid() && ValidRoles(txn) && txn.journal.name.JournalFile?
    requires Keeps(fs.disk, In(phase, txn, fs.outside))
    requires if state.Prepared? then phase in {Staging, Rolling} else phase.Clearing?
    requires phase.Rolling? && txn.journal !in fs.outside ==>
      AllBefore(txn, fs.outside, Visible(fs.disk))
    modifies fs`disk, fs`faults, fs`edits, fs`replaced
    ensures fs.Valid() && Keeps(fs.disk, In(phase, txn, fs.outside))
    ensures s.Ok? ==> Finished(fs.disk, txn, state, fs.outside) && txn.journal !in Visible(fs.disk)
    ensures s.Ok? ==> Spares(old(fs.disk), fs.disk, old(fs.Editable()) + Removable(txn))
    ensures fs.replaced == old(fs.replaced) && !s.Exists? && fs.Editable() <= old(fs.Editable())
    ensures old(fs.edits) == [] ==> fs.edits == []
    ensures !AllAuthentic(txn, Visible(old(fs.disk))) ==> !s.Ok? && fs.disk == old(fs.disk)
    // undisturbed, it changes nothing but the stages and the journal, however it ends
    ensures old(fs.edits) == [] ==> SparesAround(txn, old(fs.disk), fs.disk)
    // however it ends, a published journal goes last
    ensures !phase.Staging? || old(Held(fs.disk, txn.journal, Some(BytesOf(txn, state)), fs.outside)) ==>
      JournalLast(fs.disk, txn, state, fs.outside)
    // one bad step is healed, or leaves the journal for recovery
    ensures (&& old(Smooth(fs, txn)) && AllAuthentic(txn, Visible(old(fs.disk)))
             && Get(Visible(old(fs.disk)), txn.journal) == Some(BytesOf(txn, state)))
      ==> fs.Survived(old(fs.Trouble()), s)
          && (s.Failed? ==> Get(Visible(fs.disk), txn.journal) == Some(BytesOf(txn, state)))
  {
    StillPublished(phase, txn, state, fs.outside, fs.disk, fs.disk, {});
    s := AuthenticateAll(fs, StagedArtifacts(txn.entries));
    ghost var start, editable := fs.disk, fs.Editable();
    ButJournalIsAround(txn, start, start);
    if !s.Ok? { return; }
    s := RemoveStages(fs, txn, phase);
    ghost var mid := fs.disk;
    assert old(fs.edits) == [] ==> editable + (Removable(txn) - {txn.journal}) == Removable(txn) - {txn.journal};
    if old(fs.edits) == [] { StagesThenJournal(txn, start, mid, mid); }
    StillPublished(phase, txn, state, fs.outside, start, fs.disk,
                   editable + (Removable(txn) - {txn.journal}));
    if !s.Ok? { return; }
    s := CloseTransaction(fs, txn, state, phase);
    if old(fs.edits) == [] { StagesThenJournal(txn, start, mid, fs.disk); }
  }

  /** Every stage is gone: remove the journal. Whatever happens, it was the last to go. */
  method CloseTransaction(fs: FileSystem, txn: Txn, state: JournalState, ghost phase: Phase)
    returns (s: Status)
    requires fs.Valid() && ValidRoles(txn) && txn.journal.name.JournalFile?
    requires Keeps(fs.disk, In(phase, txn, fs.outside))
    requires if state.Prepared? then phase in {Staging, Rolling} else phase.Clearing?
    requires phase.Rolling? && txn.journal !in fs.outside ==>
      AllBefore(txn, fs.outside, Visible(fs.disk))
    requires Synced(txn, fs.outside, fs.disk, 2 * |txn.entries|)
    modifies fs`disk, fs`faults, fs`replaced
    ensures Keeps(fs.disk, In(phase, txn, fs.outside)) && JournalLast(fs.disk, txn, state, fs.outside)
    ensures s.Ok? ==> Finished(fs.disk, txn, state, fs.outside) && txn.journal !in Visible(fs.disk)
    ensures s.Ok? ==> Spares(old(fs.disk), fs.disk, {txn.journal})
    ensures SparesAllButJournal(old(fs.disk), fs.disk, txn.journal)
    ensures fs.replaced == old(fs.replaced) && !s.Exists?
    ensures old(fs.Steady()) && Get(Visible(old(fs.disk)), txn.journal) == Some(BytesOf(txn, state)) ==>
      fs.Survived(old(fs.Trouble()), s)
      && (s.Failed? ==> Get(Visible(fs.disk), txn.journal) == Some(BytesOf(txn, state)))
  {
    ghost var start := fs.disk;
    EverythingSettled(txn, fs.outside, phase, start, state);
    ValidRolesHaveProperNames(txn);
    s := CleanupJournal(fs, txn, state);
    PhasesKeepJournalLast(Closing(state), txn, fs.outside, fs.disk);
    Weaken(Closing(state), phase, txn, fs.outside, fs.disk);
    if s.Ok? {
      JournalGone(txn, fs.outside, start, fs.disk, state);
    }
  }

  /** A published journal that no cleanup has touched yet still goes last. */
  lemma StillPublished(phase: Phase, txn: Txn, state: JournalState, outside: set<Path>, a: Disk, b: Disk,
                       touched: set<Path>)
    requires Keeps(b, In(phase, txn, outside)) && Spares(a, b, touched)
    requires if state.Prepared? then phase in {Staging, Rolling} else phase.Clearing?
    requires txn.journal in touched ==> txn.journal in outside
    ensures !phase.Staging? || Held(a, txn.journal, Some(BytesOf(txn, state)), outside) ==>
      JournalLast(b, txn, state, outside)
  {
    if !phase.Staging? {
      PhasesKeepJournalLast(phase, txn, outside, b);
    } else if txn.journal !in outside && Held(a, txn.journal, Some(BytesOf(txn, state)), outside) {
      assert Settled(b, txn.journal) && Get(Visible(b), txn.journal) == Some(BytesOf(txn, state));
    }
  }

  /** Once every stage directory was flushed, no crash undoes a destination or a removal. */
  lemma EverythingSettled(txn: Txn, outside: set<Path>, phase: Phase, d: Disk, state: JournalState)
    requires ValidRoles(txn) && Keeps(d, In(phase, txn, outside))
    requires if state.Prepared? then phase in {Staging, Rolling} else phase.Clearing?
    requires phase.Rolling? && txn.journal !in outside ==> AllBefore(txn, outside, Visible(d))
    requires Synced(txn, outside, d, 2 * |txn.entries|)
    ensures txn.journal in outside || forall e :: e in txn.entries ==> Done(d, e, state, outside)
    ensures Keeps(d, In(Closing(state), txn, outside))
  {
    KeepsVisible(d, In(phase, txn, outside));
    assert PhaseAt(phase, txn, outside, Visible(d), Visible(d));
    if txn.journal !in outside {
      var staged := StagedArtifacts(txn.entries);
      forall e | e in txn.entries ensures Done(d, e, state, outside) {
        var i :| 0 <= i < |txn.entries| && txn.entries[i] == e;
        assert staged[2 * i].path == e.beforePath && staged[2 * i + 1].path == e.afterPath;
        assert EntryAt(phase, txn.journal, e, outside, Visible(d), Visible(d));
      }
    }
    Closed(phase, txn, state, outside, d);
  }

  lemma JournalGone(txn: Txn, outside: set<Path>, a: Disk, b: Disk, state: JournalState)
    requires ValidRoles(txn) && Spares(a, b, {txn.journal})
    requires txn.journal in outside || forall e :: e in txn.entries ==> Done(a, e, state, outside)
    requires txn.journal !in Visible(b) && Settled(b, txn.journal)
    ensures Finished(b, txn, state, outside)
  {
    forall e | e in txn.entries && txn.journal !in outside ensures Done(b, e, state, outside) {
      EntriesApart(txn, e, e);
      assert Done(a, e, state, outside);
    }
  }
}
