/** Staging a batch of rewrites and durably publishing its prepared journal. */
module Preparation {
  import opened Storage
  import opened Wrappers
  import opened Persistence
  import opened JournalModel
  import opened Cleanup

  ghost predicate ProperRewrites(journal: Path, rewrites: seq<Rewrite>)
  {
    && (forall i :: 0 <= i < |rewrites| ==> rewrites[i].destination != journal)
    && (forall i, j :: 0 <= i < j < |rewrites| ==> rewrites[i].destination != rewrites[j].destination)
  }

  /** Refuse a batch that rewrites the journal or one destination twice. */
  method PreflightRewriteDestinations(journal: Path, rewrites: seq<Rewrite>) returns (ok: bool)
    ensures ok <==> ProperRewrites(journal, rewrites)
  {
    var seen: set<Path> := {};
    for i := 0 to |rewrites|
      invariant seen == set k | 0 <= k < i :: rewrites[k].destination
      invariant forall k :: 0 <= k < i ==> rewrites[k].destination != journal
      invariant forall k, l :: 0 <= k < l < i ==> rewrites[k].destination != rewrites[l].destination
    {
      var d := rewrites[i].destination;
      if d == journal || d in seen { return false; }
      seen := seen + {d};
    }
    return true;
  }

  /** A stage of ours that is not yet published is no destination we answer for. */
  ghost predicate OffDestinations(p: Path, journal: Path, rewrites: seq<Rewrite>, outside: set<Path>)
  {
    p != journal &&
    (journal !in outside ==> forall r :: r in rewrites && r.destination == p ==> p in outside)
  }

  /** A commit may start wherever no crash can leave a journal: a destination that is not durably
      at its before image is one that others may change. */
  lemma AnyDiskIsIdle(journal: Path, rewrites: seq<Rewrite>, outside: set<Path>, d: Disk)
    requires forall m :: m in Images(d) ==> journal !in m
    requires forall r :: r in rewrites ==> Held(d, r.destination, Some(r.before), outside)
    ensures Keeps(d, Idle(journal, rewrites, outside))
  {
    forall m | m in Images(d) ensures IdleAt(journal, rewrites, outside, m) {
      forall r | r in rewrites ensures r.destination in outside || Get(m, r.destination) == Some(r.before) {
        assert Held(d, r.destination, Some(r.before), outside);
      }
    }
  }

  lemma IdleStages(journal: Path, rewrites: seq<Rewrite>, outside: set<Path>, d: Disk)
    requires Keeps(d, Idle(journal, rewrites, outside)) && journal.name.JournalFile?
    ensures forall p: Path :: IsStage(p.name) && p !in Visible(d) ==>
      Ignores(Idle(journal, rewrites, outside), p) && OffDestinations(p, journal, rewrites, outside)
  {
    KeepsVisible(d, Idle(journal, rewrites, outside));
    assert IdleAt(journal, rewrites, outside, Visible(d));
    forall p: Path | IsStage(p.name) && p !in Visible(d)
      ensures Ignores(Idle(journal, rewrites, outside), p)
      ensures OffDestinations(p, journal, rewrites, outside)
    {
      if journal !in outside {
        IdleIgnores(journal, rewrites, outside, p);
      }
    }
  }

  lemma IdleDropAccepted(p: Path, journal: Path, rewrites: seq<Rewrite>, outside: set<Path>)
    requires OffDestinations(p, journal, rewrites, outside)
    ensures Accepts(Idle(journal, rewrites, outside), Drop(p))
  {
    if journal !in outside {
      IdleIgnores(journal, rewrites, outside, p);
    }
  }

  lemma HeldSpared(a: Disk, b: Disk, touched: set<Path>, p: Path, content: Option<Content>, outside: set<Path>)
    requires Held(a, p, content, outside) && Spares(a, b, touched)
    requires p in touched ==> p in outside
    ensures Held(b, p, content, outside)
  {
  }

  ghost function StageSet(paths: seq<Path>): set<Path>
  {
    set p | p in paths
  }

  /** A crash brings `p` back only if it is visible now: removing it then removes it for good. */
  ghost predicate Plain(d: Disk, p: Path)
  {
    p in Visible(d) || Settled(d, p)
  }

  /** Remove stages no journal governs; a failing removal is only noted. Every stage the notes do
      not name is absent from every crash image. */
  method CleanupUnpublishedStages(fs: FileSystem, paths: seq<Path>, ghost claim: Claim)
    returns (crashed: bool, noted: set<Path>)
    requires fs.Valid() && Keeps(fs.disk, claim)
    requires forall p :: p in paths ==> Accepts(claim, Drop(p))
    modifies fs`disk, fs`faults, fs`replaced
    ensures Keeps(fs.disk, claim) && fs.replaced == old(fs.replaced)
    ensures Spares(old(fs.disk), fs.disk, StageSet(paths))
    ensures !crashed ==> forall p :: p in paths && p !in noted ==> Removed(old(fs.disk), fs.disk, p)
    ensures old(fs.Steady()) ==>
      fs.Since(old(fs.Trouble()), crashed) && (old(fs.Trouble()).Ok? || fs.faults != [] ==> noted == {})
  {
    noted := {};
    for k := 0 to |paths|
      invariant fs.Valid() && Keeps(fs.disk, claim) && fs.replaced == old(fs.replaced)
      invariant RemovedUpTo(old(fs.disk), fs.disk, paths, k, noted)
      invariant old(fs.Steady()) ==>
        fs.Since(old(fs.Trouble()), false) && (old(fs.Trouble()).Ok? || fs.faults != [] ==> noted == {})
    {
      assert paths[k] in paths;
      AcceptedAppend(fs.disk, Drop(paths[k]), claim);
      ghost var here, known := fs.disk, noted;
      var s := fs.DurableUnlink(paths[k], claim);
      SparesTwice(old(fs.disk), here, fs.disk, StageSet(paths), {paths[k]});
      if s.Crashed? { return true, noted; }
      if !s.Ok? { noted := noted + {paths[k]}; }
      RemovedNext(old(fs.disk), here, fs.disk, paths, k, known, s.Ok?);
    }
    return false, noted;
  }

  /** The first `k` paths are removed but for those noted, and nothing else is touched. */
  ghost predicate RemovedUpTo(a: Disk, b: Disk, paths: seq<Path>, k: nat, noted: set<Path>)
  {
    && Spares(a, b, StageSet(paths))
    && (forall l :: 0 <= l < k && l < |paths| && paths[l] !in noted ==> Removed(a, b, paths[l]))
    && forall p :: Plain(a, p) ==> Plain(b, p) || p in noted
  }

  lemma RemovedNext(a: Disk, b: Disk, c: Disk, paths: seq<Path>, k: nat, noted: set<Path>, removed: bool)
    requires k < |paths| && RemovedUpTo(a, b, paths, k, noted) && Spares(b, c, {paths[k]})
    requires removed ==> paths[k] !in Visible(c) && (paths[k] in Visible(b) ==> DirectorySettled(c, paths[k].dir))
    requires paths[k] !in Visible(b) ==> c == b
    requires Spares(a, c, StageSet(paths))
    ensures RemovedUpTo(a, c, paths, k + 1, if removed then noted else noted + {paths[k]})
  {
    var now := if removed then noted else noted + {paths[k]};
    forall l | 0 <= l < k + 1 && paths[l] !in now ensures Removed(a, c, paths[l]) {
      if l < k {
        assert Removed(a, b, paths[l]);
      }
    }
    forall p | Plain(a, p) && p !in now ensures Plain(c, p) {
      assert Plain(b, p);
    }
  }

  /** Gone for good, if removing it could ensure that. */
  ghost predicate Removed(a: Disk, b: Disk, p: Path)
  {
    Plain(a, p) ==> Held(b, p, None, {})
  }

  /** The first `i` rewrites are staged: both images durably there under proper names. */
  ghost predicate StagedUpTo(d: Disk, entries: seq<Entry>, journal: Path, rewrites: seq<Rewrite>,
                             outside: set<Path>)
  {
    && |entries| <= |rewrites| && Corresponds(entries, rewrites[..|entries|])
    && forall e :: e in entries ==>
         && NamesMatch(e)
         && Held(d, e.beforePath, Some(e.before), outside) && Held(d, e.afterPath, Some(e.after), outside)
         && OffDestinations(e.beforePath, journal, rewrites, outside)
         && OffDestinations(e.afterPath, journal, rewrites, outside)
  }

  lemma StagedSpared(a: Disk, b: Disk, touched: set<Path>, entries: seq<Entry>, journal: Path,
                     rewrites: seq<Rewrite>, outside: set<Path>)
    requires StagedUpTo(a, entries, journal, rewrites, outside) && Spares(a, b, touched)
    requires forall p :: p in touched ==> p in outside || p !in Visible(a)
    ensures StagedUpTo(b, entries, journal, rewrites, outside)
  {
    forall e | e in entries
      ensures Held(b, e.beforePath, Some(e.before), outside)
      ensures Held(b, e.afterPath, Some(e.after), outside)
    {
      HeldSpared(a, b, touched, e.beforePath, Some(e.before), outside);
      HeldSpared(a, b, touched, e.afterPath, Some(e.after), outside);
    }
  }

  /** Stage one image beside its destination, or leave nothing but what the note names. */
  method StageOne(fs: FileSystem, journal: Path, rewrites: seq<Rewrite>, destination: Path, role: Role,
                  image: Content)
    returns (s: Status, staged: Path, noted: set<Path>)
    requires fs.Valid() && journal.name.JournalFile?
    requires Keeps(fs.disk, Idle(journal, rewrites, fs.outside))
    modifies fs`disk, fs`faults, fs`replaced
    ensures Keeps(fs.disk, Idle(journal, rewrites, fs.outside)) && fs.replaced == old(fs.replaced)
    ensures Drawable(destination.dir, ImageStage(role, destination.name, 0), staged)
    ensures staged !in Visible(old(fs.disk)) && OffDestinations(staged, journal, rewrites, fs.outside)
    ensures s.Ok? ==> noted == {} && Held(fs.disk, staged, Some(image), {})
    ensures Spares(old(fs.disk), fs.disk, {staged})
    ensures !s.Ok? && !s.Crashed? ==> noted <= {staged} && Spares(old(fs.disk), fs.disk, noted)
    ensures old(fs.Steady()) ==> fs.Met(old(fs.Trouble()), s) && noted == {}
  {
    IdleStages(journal, rewrites, fs.outside, fs.disk);
    var orphaned;
    s, staged, orphaned := fs.StageBytes(destination.dir, ImageStage(role, destination.name, 0), image,
                                         Idle(journal, rewrites, fs.outside));
    noted := if !s.Ok? && orphaned then {staged} else {};
  }

  /** Stage both images of one rewrite beside its destination. After a failure nothing is left
      but `staged`, which the caller removes, and what the failure's note names. */
  method StagePair(fs: FileSystem, journal: Path, rewrites: seq<Rewrite>, i: nat)
    returns (s: Status, e: Entry, staged: seq<Path>, noted: set<Path>)
    requires fs.Valid() && i < |rewrites| && journal.name.JournalFile?
    requires Keeps(fs.disk, Idle(journal, rewrites, fs.outside))
    modifies fs`disk, fs`faults, fs`replaced
    ensures Keeps(fs.disk, Idle(journal, rewrites, fs.outside)) && fs.replaced == old(fs.replaced)
    ensures forall p :: p in staged ==> OffDestinations(p, journal, rewrites, fs.outside)
    ensures !s.Crashed? ==> forall p :: p in staged ==> p in Visible(fs.disk) && p !in Visible(old(fs.disk))
    ensures !s.Crashed? ==> Spares(old(fs.disk), fs.disk, StageSet(staged) + noted)
    ensures s.Ok? ==> noted == {}
    ensures s.Ok? ==> StagedUpTo(fs.disk, [e], journal, [rewrites[i]], fs.outside)
    ensures s.Ok? ==> staged == [e.beforePath, e.afterPath]
    ensures s.Ok? ==> Spares(old(fs.disk), fs.disk, {e.beforePath, e.afterPath})
    ensures s.Ok? ==> e.beforePath !in Visible(old(fs.disk)) && e.afterPath !in Visible(old(fs.disk))
    ensures old(fs.Steady()) ==> fs.Met(old(fs.Trouble()), s) && noted == {}
  {
    var r := rewrites[i];
    ghost var start := fs.disk;
    var before, after;
    s, before, noted := StageOne(fs, journal, rewrites, r.destination, Before, r.before);
    e, staged := Entry(r.destination, before, r.before, before, r.after), [];
    if !s.Ok? { return; }
    ghost var mid := fs.disk;
    s, after, noted := StageOne(fs, journal, rewrites, r.destination, After, r.after);
    e := Entry(r.destination, before, r.before, after, r.after);
    if s.Crashed? { return; }
    HeldSpared(mid, fs.disk, {after}, before, Some(r.before), {});
    if s.Ok? {
      staged := [before, after];
      SparesTwice(start, mid, fs.disk, {before, after}, {after});
      assert Get(Visible(start), after) == Get(Visible(mid), after);
      OneStaged(fs.disk, e, journal, rewrites, rewrites[i], fs.outside);
    } else {
      staged := [before];
      SparesTwice(start, mid, fs.disk, {before} + noted, noted);
    }
    assert StageSet(staged) == if s.Ok? then {before, after} else {before};
  }

  lemma OneStaged(d: Disk, e: Entry, journal: Path, rewrites: seq<Rewrite>, r: Rewrite, outside: set<Path>)
    requires r in rewrites && NamesMatch(e) && Corresponds([e], [r])
    requires Held(d, e.beforePath, Some(e.before), {}) && Held(d, e.afterPath, Some(e.after), {})
    requires OffDestinations(e.beforePath, journal, rewrites, outside)
    requires OffDestinations(e.afterPath, journal, rewrites, outside)
    ensures StagedUpTo(d, [e], journal, [r], outside)
  {
    assert [r][..1] == [r];
  }

  function StagePaths(entries: seq<Entry>): (r: seq<Path>)
    ensures forall p :: p in r ==> exists e :: e in entries && p in {e.beforePath, e.afterPath}
  {
    if entries == [] then []
    else
      var last := entries[|entries| - 1];
      StagePaths(entries[..|entries| - 1]) + [last.beforePath, last.afterPath]
  }

  lemma OneMoreStaged(d: Disk, entries: seq<Entry>, e: Entry, journal: Path, rewrites: seq<Rewrite>,
                      outside: set<Path>)
    requires |entries| < |rewrites| && StagedUpTo(d, entries, journal, rewrites, outside)
    requires StagedUpTo(d, [e], journal, [rewrites[|entries|]], outside)
    requires OffDestinations(e.beforePath, journal, rewrites, outside)
    requires OffDestinations(e.afterPath, journal, rewrites, outside)
    ensures StagedUpTo(d, entries + [e], journal, rewrites, outside)
  {
    assert e in [e];
    assert [rewrites[|entries|]][..1][0] == rewrites[|entries|];
  }

  /** Every change since `a` is another process's, or a stage of ours that was not there. */
  ghost predicate OnlyStaged(a: Disk, b: Disk, entries: seq<Entry>, editable: set<Path>, outside: set<Path>)
  {
    && Spares(a, b, editable + StageSet(StagePaths(entries)))
    && forall p :: p in StagePaths(entries) ==> p in outside || p !in Visible(a)
  }

  lemma OneMoreOnlyStaged(a: Disk, b: Disk, c: Disk, entries: seq<Entry>, e: Entry, editable: set<Path>,
                          outside: set<Path>)
    requires OnlyStaged(a, b, entries, editable, outside) && Spares(b, c, {e.beforePath, e.afterPath})
    requires editable <= outside
    requires forall f :: f in entries ==> StagesThere(b, f, outside)
    requires e.beforePath !in Visible(b) && e.afterPath !in Visible(b)
    ensures OnlyStaged(a, c, entries + [e], editable, outside)
  {
    assert (entries + [e])[..|entries|] == entries;
    var paths := StagePaths(entries);
    assert StagePaths(entries + [e]) == paths + [e.beforePath, e.afterPath];
    forall p | p in {e.beforePath, e.afterPath} ensures p in outside || p !in Visible(a) {
      assert p !in Visible(b);
      if p in paths {
        var f :| f in entries && p in {f.beforePath, f.afterPath};
        assert StagesThere(b, f, outside);
      } else if p !in outside {
        assert p !in editable + StageSet(paths);
      }
    }
    SparesTwice(a, b, c, editable + StageSet(paths + [e.beforePath, e.afterPath]), {e.beforePath, e.afterPath});
  }

  ghost predicate StagesThere(d: Disk, e: Entry, outside: set<Path>)
  {
    (e.beforePath in outside || e.beforePath in Visible(d)) && (e.afterPath in outside || e.afterPath in Visible(d))
  }

  /** Once this attempt's stages are removed, nothing of it is left but what the notes name. */
  lemma NothingLeft(a: Disk, b: Disk, c: Disk, d: Disk, entries: seq<Entry>, staged: seq<Path>,
                    editable: set<Path>, outside: set<Path>, noted: set<Path>, more: set<Path>)
    requires OnlyStaged(a, b, entries, editable, outside) && editable <= outside
    requires forall f :: f in entries ==> StagesThere(b, f, outside)
    requires Spares(b, c, StageSet(staged) + noted) && Spares(c, d, StageSet(StagePaths(entries) + staged))
    requires forall p :: p in staged ==> p in Visible(c) && p !in Visible(b)
    requires forall p :: p in StagePaths(entries) + staged && p !in more ==> Removed(c, d, p)
    ensures Spares(a, d, outside + noted + more)
    ensures (forall p :: p in StagePaths(entries) ==> p !in outside) ==> Spares(a, d, editable + noted + more)
  {
    var paths := StagePaths(entries);
    var free := if forall p :: p in paths ==> p !in outside then editable else outside;
    forall p | p !in free + noted + more
      ensures Get(Visible(d), p) == Get(Visible(a), p) && (Settled(a, p) ==> Settled(d, p))
    {
      if p in paths {
        assert p in paths + staged && Removed(c, d, p);
        var f :| f in entries && p in {f.beforePath, f.afterPath};
        assert p in Visible(b) && p in Visible(c);
      } else if p in staged {
        assert p in paths + staged && Removed(c, d, p);
      } else {
        assert p !in paths + staged && p !in editable + StageSet(paths);
      }
    }
  }

  /** Stage every image. A failure leaves nothing of this attempt, in any crash image, but the
      stages its notes name, and no journal. */
  method StageImages(fs: FileSystem, journal: Path, rewrites: seq<Rewrite>)
    returns (s: Status, entries: seq<Entry>, noted: set<Path>)
    requires fs.Valid() && journal.name.JournalFile?
    requires Keeps(fs.disk, Idle(journal, rewrites, fs.outside))
    modifies fs`disk, fs`faults, fs`edits, fs`replaced
    ensures fs.Valid() && Keeps(fs.disk, Idle(journal, rewrites, fs.outside))
    ensures fs.replaced == old(fs.replaced)
    ensures s.Ok? ==> |entries| == |rewrites|
    ensures s.Ok? ==> StagedUpTo(fs.disk, entries, journal, rewrites, fs.outside)
    ensures s.Ok? ==> OnlyStaged(old(fs.disk), fs.disk, entries, old(fs.Editable()), fs.outside)
    ensures !s.Ok? && !s.Crashed? ==> Spares(old(fs.disk), fs.disk, fs.outside + noted)
    ensures !s.Ok? && !s.Crashed? && OnlyDocuments(fs.outside, journal) ==>
      Spares(old(fs.disk), fs.disk, old(fs.Editable()) + noted)
    ensures fs.Editable() <= old(fs.Editable()) && (old(fs.edits) == [] ==> fs.edits == [])
    // one bad step leaves nothing behind
    ensures old(fs.Steady()) ==> fs.Met(old(fs.Trouble()), s) && (!s.Crashed? ==> noted == {})
    ensures !s.Exists?
  {
    ghost var claim := Idle(journal, rewrites, fs.outside);
    entries, noted := [], {};
    for i := 0 to |rewrites|
      invariant fs.Valid() && Keeps(fs.disk, claim) && fs.replaced == old(fs.replaced)
      invariant |entries| == i && StagedUpTo(fs.disk, entries, journal, rewrites, fs.outside)
      invariant OnlyStaged(old(fs.disk), fs.disk, entries, old(fs.Editable()), fs.outside)
      invariant fs.Editable() <= old(fs.Editable())
      invariant noted == {} && (old(fs.Steady()) ==> fs.Met(old(fs.Trouble()), Ok))
      invariant old(fs.edits) == [] ==> fs.edits == []
    {
      s, entries, noted := StageNext(fs, journal, rewrites, entries, old(fs.disk), old(fs.Editable()));
      if !s.Ok? { return; }
    }
    s := Ok;
  }

  /** Stage the next rewrite, or remove everything staged so far. */
  method StageNext(fs: FileSystem, journal: Path, rewrites: seq<Rewrite>, entries: seq<Entry>,
                   ghost start: Disk, ghost editable: set<Path>)
    returns (s: Status, entries': seq<Entry>, noted: set<Path>)
    requires fs.Valid() && journal.name.JournalFile? && |entries| < |rewrites|
    requires Keeps(fs.disk, Idle(journal, rewrites, fs.outside)) && fs.Editable() <= editable <= fs.outside
    requires StagedUpTo(fs.disk, entries, journal, rewrites, fs.outside)
    requires OnlyStaged(start, fs.disk, entries, editable, fs.outside)
    modifies fs`disk, fs`faults, fs`edits, fs`replaced
    ensures fs.Valid() && Keeps(fs.disk, Idle(journal, rewrites, fs.outside))
    ensures fs.replaced == old(fs.replaced) && fs.Editable() <= editable
    ensures fs.edits == if old(fs.edits) == [] then [] else old(fs.edits)[1..]
    ensures s.Ok? ==>
      && |entries'| == |entries| + 1 && noted == {}
      && StagedUpTo(fs.disk, entries', journal, rewrites, fs.outside)
      && OnlyStaged(start, fs.disk, entries', editable, fs.outside)
    ensures !s.Ok? && !s.Crashed? ==> Spares(start, fs.disk, fs.outside + noted)
    ensures !s.Ok? && !s.Crashed? && OnlyDocuments(fs.outside, journal) ==> Spares(start, fs.disk, editable + noted)
    ensures old(fs.Steady()) ==> fs.Met(old(fs.Trouble()), s) && (!s.Crashed? ==> noted == {})
    ensures !s.Exists?
  {
    entries' := entries;
    ghost var here, less := fs.disk, fs.Editable();
    BetweenStages(fs, entries, journal, rewrites);
    OthersOnly(start, here, fs.disk, entries, editable, less, fs.outside);
    ghost var mid := fs.disk;
    var e, staged;
    s, e, staged, noted := StagePair(fs, journal, rewrites, |entries|);
    if s.Crashed? { return; }
    if !s.Ok? {
      s, noted := DropStages(fs, journal, rewrites, entries, staged, noted, start, mid, editable);
      return;
    }
    entries' := entries + [e];
    StagedNext(start, mid, fs.disk, entries, e, staged, journal, rewrites, editable, fs.outside);
  }

  lemma StagedNext(a: Disk, b: Disk, c: Disk, entries: seq<Entry>, e: Entry, staged: seq<Path>, journal: Path,
                   rewrites: seq<Rewrite>, editable: set<Path>, outside: set<Path>)
    requires StagedUpTo(b, entries, journal, rewrites, outside) && OnlyStaged(a, b, entries, editable, outside)
    requires editable <= outside && |entries| < |rewrites| && Spares(b, c, {e.beforePath, e.afterPath})
    requires StagedUpTo(c, [e], journal, [rewrites[|entries|]], outside) && staged == [e.beforePath, e.afterPath]
    requires e.beforePath !in Visible(b) && e.afterPath !in Visible(b)
    requires forall p :: p in staged ==> OffDestinations(p, journal, rewrites, outside)
    ensures StagedUpTo(c, entries + [e], journal, rewrites, outside)
    ensures OnlyStaged(a, c, entries + [e], editable, outside)
  {
    assert e.beforePath in staged && e.afterPath in staged;
    StagesAreThere(b, entries, journal, rewrites, outside);
    StagedSpared(b, c, {e.beforePath, e.afterPath}, entries, journal, rewrites, outside);
    OneMoreOnlyStaged(a, b, c, entries, e, editable, outside);
    OneMoreStaged(c, entries, e, journal, rewrites, outside);
  }

  /** Staging failed: remove what was staged so far. */
  method DropStages(fs: FileSystem, journal: Path, rewrites: seq<Rewrite>, entries: seq<Entry>, staged: seq<Path>,
                    noted: set<Path>, ghost a: Disk, ghost mid: Disk, ghost editable: set<Path>)
    returns (s: Status, notes: set<Path>)
    requires fs.Valid() && Keeps(fs.disk, Idle(journal, rewrites, fs.outside)) && editable <= fs.outside
    requires StagedUpTo(mid, entries, journal, rewrites, fs.outside)
    requires OnlyStaged(a, mid, entries, editable, fs.outside)
    requires Spares(mid, fs.disk, StageSet(staged) + noted)
    requires forall p :: p in staged ==>
      p in Visible(fs.disk) && p !in Visible(mid) && OffDestinations(p, journal, rewrites, fs.outside)
    modifies fs`disk, fs`faults, fs`replaced
    ensures Keeps(fs.disk, Idle(journal, rewrites, fs.outside)) && fs.replaced == old(fs.replaced)
    ensures s.Failed? || s.Crashed?
    ensures s.Failed? ==> Spares(a, fs.disk, fs.outside + notes)
    ensures s.Failed? && OnlyDocuments(fs.outside, journal) ==> Spares(a, fs.disk, editable + notes)
    ensures old(fs.Steady()) ==> fs.Since(old(fs.Trouble()), s.Crashed?)
    ensures old(fs.faults) == [] ==> notes == noted
  {
    ghost var claim := Idle(journal, rewrites, fs.outside);
    forall p | p in StagePaths(entries) + staged ensures Accepts(claim, Drop(p)) {
      if p in StagePaths(entries) {
        var e :| e in entries && p in {e.beforePath, e.afterPath};
      }
      IdleDropAccepted(p, journal, rewrites, fs.outside);
    }
    ghost var failed := fs.disk;
    var crashed, more := CleanupUnpublishedStages(fs, StagePaths(entries) + staged, claim);
    notes := noted + more;
    if crashed { return Crashed, notes; }
    StagesAreThere(mid, entries, journal, rewrites, fs.outside);
    NothingLeft(a, mid, failed, fs.disk, entries, staged, editable, fs.outside, noted, more);
    StagesAreOurs(mid, entries, journal, rewrites, fs.outside);
    return Failed, notes;
  }

  /** Another process may run between two pairs. */
  method BetweenStages(fs: FileSystem, ghost entries: seq<Entry>, ghost journal: Path,
                       ghost rewrites: seq<Rewrite>)
    requires fs.Valid() && Keeps(fs.disk, Idle(journal, rewrites, fs.outside))
    requires StagedUpTo(fs.disk, entries, journal, rewrites, fs.outside)
    modifies fs`disk, fs`edits
    ensures fs.Valid() && Keeps(fs.disk, Idle(journal, rewrites, fs.outside))
    ensures StagedUpTo(fs.disk, entries, journal, rewrites, fs.outside)
    ensures Spares(old(fs.disk), fs.disk, old(fs.Editable())) && fs.Editable() <= old(fs.Editable())
    ensures fs.edits == if old(fs.edits) == [] then [] else old(fs.edits)[1..]
  {
    forall p | p in fs.outside ensures Ignores(Idle(journal, rewrites, fs.outside), p) {
      IdleIgnores(journal, rewrites, fs.outside, p);
    }
    fs.Environment(Idle(journal, rewrites, fs.outside));
    StagedSpared(old(fs.disk), fs.disk, old(fs.Editable()), entries, journal, rewrites, fs.outside);
  }

  lemma OthersOnly(a: Disk, b: Disk, c: Disk, entries: seq<Entry>, editable: set<Path>, less: set<Path>,
                   outside: set<Path>)
    requires OnlyStaged(a, b, entries, editable, outside) && Spares(b, c, less) && less <= editable
    ensures OnlyStaged(a, c, entries, editable, outside)
  {
    SparesTwice(a, b, c, editable + StageSet(StagePaths(entries)), less);
  }

  lemma StagesAreOurs(d: Disk, entries: seq<Entry>, journal: Path, rewrites: seq<Rewrite>, outside: set<Path>)
    requires StagedUpTo(d, entries, journal, rewrites, outside)
    ensures OnlyDocuments(outside, journal) ==> forall p :: p in StagePaths(entries) ==> p !in outside
  {
    if OnlyDocuments(outside, journal) {
      forall p | p in StagePaths(entries) ensures p !in outside {
        var e :| e in entries && p in {e.beforePath, e.afterPath};
        assert NamesMatch(e);
      }
    }
  }

  lemma StagesAreThere(d: Disk, entries: seq<Entry>, journal: Path, rewrites: seq<Rewrite>, outside: set<Path>)
    requires StagedUpTo(d, entries, journal, rewrites, outside)
    ensures forall f :: f in entries ==> StagesThere(d, f, outside)
  {
  }

  lemma StageIdentity(entries: seq<Entry>, k: nat)
    requires k < 2 * |entries| && forall e :: e in entries ==> NamesMatch(e)
    ensures var p := StagedArtifacts(entries)[k].path; var e := entries[k / 2];
      && p.name == ImageStage(if k % 2 == 0 then Before else After, e.destination.name, RandomOf(p))
      && p.dir == e.destination.dir && p in {e.beforePath, e.afterPath}
  {
    var e := entries[k / 2];
    assert e in entries && (k == 2 * (k / 2) || k == 2 * (k / 2) + 1);
  }

  ghost predicate ProperEntries(entries: seq<Entry>)
  {
    (forall e :: e in entries ==> NamesMatch(e)) &&
    forall i, j :: 0 <= i < j < |entries| ==> entries[i].destination != entries[j].destination
  }

  lemma StagesDiffer(entries: seq<Entry>, k: nat, l: nat)
    requires ProperEntries(entries) && k < l < 2 * |entries|
    ensures StagedArtifacts(entries)[k].path != StagedArtifacts(entries)[l].path
  {
    StageIdentity(entries, k);
    StageIdentity(entries, l);
    if k / 2 != l / 2 {
      assert entries[k / 2].destination != entries[l / 2].destination;
    }
  }

  lemma StageIsNoDestination(txn: Txn, rewrites: seq<Rewrite>, d: Disk, k: nat, i: nat)
    requires Corresponds(txn.entries, rewrites) && txn.journal.name.JournalFile?
    requires StagedUpTo(d, txn.entries, txn.journal, rewrites, {})
    requires k < 2 * |txn.entries| && i < |txn.entries|
    ensures StagedArtifacts(txn.entries)[k].path !in {txn.journal, txn.entries[i].destination}
  {
    StageIdentity(txn.entries, k);
    var e := txn.entries[k / 2];
    assert e in txn.entries;
    assert rewrites[i] in rewrites && rewrites[i].destination == txn.entries[i].destination;
  }

  /** Distinct proper destinations and fresh, properly named stages pass every role check. */
  lemma RolesFromNames(txn: Txn, rewrites: seq<Rewrite>, d: Disk)
    requires ProperRewrites(txn.journal, rewrites) && |txn.entries| == |rewrites|
    requires StagedUpTo(d, txn.entries, txn.journal, rewrites, {}) && txn.journal.name.JournalFile?
    ensures ValidRoles(txn)
  {
    assert rewrites[..|rewrites|] == rewrites;
    var staged := StagedArtifacts(txn.entries);
    forall k, i | 0 <= k < |staged| && 0 <= i < |txn.entries|
      ensures staged[k].path !in {txn.journal, txn.entries[i].destination}
    {
      StageIsNoDestination(txn, rewrites, d, k, i);
    }
    forall k | 0 <= k < |staged| ensures staged[k].path != txn.journal {
      assert staged[k].path !in {txn.journal, txn.entries[0].destination};
    }
    forall k, l | 0 <= k < l < |staged| ensures staged[k].path != staged[l].path {
      StagesDiffer(txn.entries, k, l);
    }
  }

  /** Others edit documents only: neither the journal nor anything named like a stage. */
  ghost predicate OnlyDocuments(outside: set<Path>, journal: Path)
  {
    journal !in outside && forall p :: p in outside ==> !IsStage(p.name)
  }

  /** Then every stage is where it was put, and no destination. */
  lemma StagedForSure(d: Disk, entries: seq<Entry>, journal: Path, rewrites: seq<Rewrite>, outside: set<Path>)
    requires StagedUpTo(d, entries, journal, rewrites, outside) && OnlyDocuments(outside, journal)
    ensures StagedUpTo(d, entries, journal, rewrites, {})
  {
    forall e | e in entries ensures e.beforePath !in outside && e.afterPath !in outside {
      assert NamesMatch(e);
    }
  }

  /** What an attempt leaves for recovery: nothing published; the journal that was already there
      and refused it; or a transaction in some phase. */
  datatype Left = NoJournal | Refused | During(phase: Phase, txn: Txn)

  ghost predicate Stands(left: Left, journal: Path, rewrites: seq<Rewrite>, outside: set<Path>, d: Disk)
  {
    match left
    case NoJournal => Keeps(d, Idle(journal, rewrites, outside))
    case Refused => journal in Visible(d)
    case During(phase, txn) =>
      && txn.journal == journal && Corresponds(txn.entries, rewrites) && ProperNames(txn) && !phase.Closing?
      && (phase != Staging ==> ValidRoles(txn)) && Keeps(d, In(phase, txn, outside))
  }

  /** Whatever journal a crash leaves, recovering from it would find every destination at its
      before image: there is nothing to undo. */
  ghost predicate NothingToUndo(txn: Txn, outside: set<Path>, d: Disk)
  {
    txn.journal in outside ||
    forall m, e :: m in Images(d) && e in txn.entries ==> BeforeAt(e, outside, m)
  }

  lemma StagingUndoesNothing(txn: Txn, outside: set<Path>, d: Disk)
    requires Keeps(d, In(Staging, txn, outside))
    ensures NothingToUndo(txn, outside, d)
  {
    forall m, e | m in Images(d) && e in txn.entries && txn.journal !in outside
      ensures BeforeAt(e, outside, m)
    {
      assert PhaseAt(Staging, txn, outside, m, Visible(d));
      assert EntryAt(Staging, txn.journal, e, outside, m, Visible(d));
    }
  }

  /** A published journal goes last; until one is published there is nothing to undo. */
  ghost predicate LastOrNothing(left: Left, outside: set<Path>, d: Disk)
  {
    left.During? ==>
      if left.phase.Staging? then NothingToUndo(left.txn, outside, d)
      else JournalLast(d, left.txn, Side(left.phase), outside)
  }

  lemma StandsLast(left: Left, journal: Path, rewrites: seq<Rewrite>, outside: set<Path>, d: Disk)
    requires Stands(left, journal, rewrites, outside, d)
    ensures LastOrNothing(left, outside, d)
  {
    if left.During? {
      if left.phase.Staging? {
        StagingUndoesNothing(left.txn, outside, d);
      } else {
        PhasesKeepJournalLast(left.phase, left.txn, outside, d);
      }
    }
  }

  ghost predicate StagesPlain(txn: Txn, d: Disk)
  {
    forall e :: e in txn.entries ==> Plain(d, e.beforePath) && Plain(d, e.afterPath)
  }

  ghost predicate StagesDurablyGone(txn: Txn, outside: set<Path>, d: Disk)
  {
    txn.journal in outside ||
    forall e :: e in txn.entries ==> Held(d, e.beforePath, None, outside) && Held(d, e.afterPath, None, outside)
  }

  lemma StagesRemoved(txn: Txn, outside: set<Path>, a: Disk, b: Disk)
    requires AllRemoved(a, b, StagePaths(txn.entries))
    ensures StagesPlain(txn, a) ==> StagesDurablyGone(txn, outside, b)
  {
    if StagesPlain(txn, a) {
      forall e | e in txn.entries
        ensures Held(b, e.beforePath, None, outside) && Held(b, e.afterPath, None, outside)
      {
        InStagePaths(txn.entries, e);
        RemovedForGood(a, b, StagePaths(txn.entries), e.beforePath, outside);
        RemovedForGood(a, b, StagePaths(txn.entries), e.afterPath, outside);
      }
    }
  }

  ghost predicate AllRemoved(a: Disk, b: Disk, paths: seq<Path>)
  {
    forall p :: p in paths ==> Removed(a, b, p)
  }

  lemma RemovedForGood(a: Disk, b: Disk, paths: seq<Path>, p: Path, outside: set<Path>)
    requires AllRemoved(a, b, paths) && p in paths && Plain(a, p)
    ensures Held(b, p, None, outside)
  {
    assert Removed(a, b, p);
  }

  lemma {:induction false} InStagePaths(entries: seq<Entry>, e: Entry)
    requires e in entries
    ensures e.beforePath in StagePaths(entries) && e.afterPath in StagePaths(entries)
  {
    var n := |entries| - 1;
    if e != entries[n] {
      InStagePaths(entries[..n], e);
    }
  }

  /** Clean up after a journal that could not be published, without touching a foreign one. The
      stages go even where the journal is still visible; then every destination is at its before
      image in every crash image, so no recovery needs them. Unless the notes name something,
      every stage is gone for good. */
  method CleanupFailedPublication(fs: FileSystem, txn: Txn, rewrites: seq<Rewrite>, primary: Status)
    returns (crashed: bool, noted: bool)
    requires fs.Valid() && ProperNames(txn) && Corresponds(txn.entries, rewrites)
    requires Keeps(fs.disk, In(Staging, txn, fs.outside)) && primary in {Failed, Exists}
    requires forall e :: e in txn.entries ==>
      && OffDestinations(e.beforePath, txn.journal, rewrites, fs.outside)
      && OffDestinations(e.afterPath, txn.journal, rewrites, fs.outside)
    modifies fs`disk, fs`faults, fs`edits, fs`replaced
    ensures fs.Valid() && Keeps(fs.disk, In(Staging, txn, fs.outside))
    ensures fs.replaced == old(fs.replaced)
    ensures NothingToUndo(txn, fs.outside, fs.disk)
    ensures !crashed && !noted && old(StagesPlain(txn, fs.disk)) ==>
      StagesDurablyGone(txn, fs.outside, fs.disk)
    ensures old(fs.Orderly()) && ValidRoles(txn) && old(AllAuthentic(txn, Visible(fs.disk))) ==>
      fs.Since(old(fs.Trouble()), crashed) && (old(fs.Trouble()).Ok? || fs.faults != [] ==> !noted)
    // the journal goes as well, unless it could not be told whose it is
    ensures (&& old(fs.Calm()) && ValidRoles(txn) && old(AllAuthentic(txn, Visible(fs.disk)))
             && txn.journal !in fs.outside && primary.Failed?)
      ==> txn.journal !in Visible(fs.disk)
    ensures old(fs.Calm()) && ValidRoles(txn) && old(AllAuthentic(txn, Visible(fs.disk))) ==>
      Spares(old(fs.disk), fs.disk, Removable(txn))
    ensures old(fs.edits) == [] ==> fs.edits == []
  {
    StagingUndoesNothing(txn, fs.outside, fs.disk);
    PreparedOrAbsent(txn, fs.outside, fs.disk);
    var status := Absent;
    noted := true;
    if primary.Failed? {
      crashed, status := ExactJournalStatus(fs, txn.journal, BytesOf(txn, Prepared));
      if crashed { return; }
    }
    if status.Exact? {
      crashed, noted := WithdrawPublication(fs, txn);
    } else {
      crashed, noted := DropUnpublished(fs, txn, rewrites);
    }
    StagingUndoesNothing(txn, fs.outside, fs.disk);
  }

  lemma PreparedOrAbsent(txn: Txn, outside: set<Path>, d: Disk)
    requires Keeps(d, In(Staging, txn, outside))
    ensures txn.journal in outside || Get(Visible(d), txn.journal) in {None, Some(BytesOf(txn, Prepared))}
  {
    KeepsVisible(d, In(Staging, txn, outside));
    assert PhaseAt(Staging, txn, outside, Visible(d), Visible(d));
  }

  /** The journal is there: load it, remove every stage and then the journal. */
  method WithdrawPublication(fs: FileSystem, txn: Txn) returns (crashed: bool, noted: bool)
    requires fs.Valid() && ProperNames(txn) && Keeps(fs.disk, In(Staging, txn, fs.outside))
    requires Get(Visible(fs.disk), txn.journal) == Some(BytesOf(txn, Prepared))
    modifies fs`disk, fs`faults, fs`edits, fs`replaced
    ensures fs.Valid() && Keeps(fs.disk, In(Staging, txn, fs.outside)) && fs.replaced == old(fs.replaced)
    ensures !crashed && !noted ==> Finished(fs.disk, txn, Prepared, fs.outside) && txn.journal !in Visible(fs.disk)
    ensures old(fs.Orderly()) && ValidRoles(txn) && old(AllAuthentic(txn, Visible(fs.disk))) ==>
      fs.Since(old(fs.Trouble()), crashed) && (old(fs.Trouble()).Ok? || fs.faults != [] ==> !noted)
    ensures old(fs.Calm()) && !crashed && !noted ==> Spares(old(fs.disk), fs.disk, Removable(txn))
    ensures old(fs.edits) == [] ==> fs.edits == []
  {
    var s, state, loaded := LoadJournal(fs, txn.journal);
    if !s.Ok? { return s.Crashed?, true; }
    assert loaded == txn && state == Prepared;
    s := CleanupTransactionArtifacts(fs, txn, Prepared, Staging);
    return s.Crashed?, !s.Ok?;
  }

  /** The journal is not there, or not ours: remove every stage. */
  method DropUnpublished(fs: FileSystem, txn: Txn, rewrites: seq<Rewrite>) returns (crashed: bool, noted: bool)
    requires fs.Valid() && Corresponds(txn.entries, rewrites) && Keeps(fs.disk, In(Staging, txn, fs.outside))
    requires forall e :: e in txn.entries ==>
      && OffDestinations(e.beforePath, txn.journal, rewrites, fs.outside)
      && OffDestinations(e.afterPath, txn.journal, rewrites, fs.outside)
    modifies fs`disk, fs`faults, fs`replaced
    ensures Keeps(fs.disk, In(Staging, txn, fs.outside)) && fs.replaced == old(fs.replaced)
    ensures !crashed && !noted && old(StagesPlain(txn, fs.disk)) ==>
      StagesDurablyGone(txn, fs.outside, fs.disk)
    ensures old(fs.Steady()) ==>
      fs.Since(old(fs.Trouble()), crashed) && (old(fs.Trouble()).Ok? || fs.faults != [] ==> !noted)
    ensures Spares(old(fs.disk), fs.disk, Removable(txn))
    ensures ValidRoles(txn) ==> Get(Visible(fs.disk), txn.journal) == Get(Visible(old(fs.disk)), txn.journal)
  {
    UnpublishedDropsAccepted(txn, rewrites, fs.outside);
    ghost var start := fs.disk;
    var names;
    crashed, names := CleanupUnpublishedStages(fs, StagePaths(txn.entries), In(Staging, txn, fs.outside));
    noted := names != {};
    if !crashed && !noted {
      StagesRemoved(txn, fs.outside, start, fs.disk);
    }
    StagesAreRemovable(txn);
  }

  lemma StagesAreRemovable(txn: Txn)
    ensures StageSet(StagePaths(txn.entries)) <= Removable(txn)
    ensures ValidRoles(txn) ==> txn.journal !in StagePaths(txn.entries)
  {
    forall p | p in StagePaths(txn.entries) ensures p in Removable(txn) && (ValidRoles(txn) ==> p != txn.journal) {
      var e :| e in txn.entries && p in {e.beforePath, e.afterPath};
      if ValidRoles(txn) { EntriesApart(txn, e, e); }
    }
  }

  lemma UnpublishedDropsAccepted(txn: Txn, rewrites: seq<Rewrite>, outside: set<Path>)
    requires Corresponds(txn.entries, rewrites)
    requires forall e :: e in txn.entries ==>
      && OffDestinations(e.beforePath, txn.journal, rewrites, outside)
      && OffDestinations(e.afterPath, txn.journal, rewrites, outside)
    ensures forall p :: p in StagePaths(txn.entries) ==> Accepts(In(Staging, txn, outside), Drop(p))
  {
    forall p | p in StagePaths(txn.entries) ensures Accepts(In(Staging, txn, outside), Drop(p)) {
      var e :| e in txn.entries && p in {e.beforePath, e.afterPath};
      forall f | f in txn.entries && f.destination == p && txn.journal !in outside ensures p in outside {
        var i :| 0 <= i < |txn.entries| && txn.entries[i] == f;
        assert rewrites[i] in rewrites;
      }
      UnpublishedDropAccepted(txn, outside, p);
    }
  }

  /** Every entry from the i-th on is still to be applied, its after stage durably there. */
  ghost predicate ToApply(txn: Txn, outside: set<Path>, d: Disk, i: nat)
  {
    forall k :: i <= k < |txn.entries| ==>
      && Held(d, txn.entries[k].afterPath, Some(txn.entries[k].after), outside)
      && (txn.journal in outside || BeforeAt(txn.entries[k], outside, Visible(d)))
  }

  /** Every before stage is durably there. */
  ghost predicate BeforesHeld(txn: Txn, outside: set<Path>, d: Disk)
  {
    forall e :: e in txn.entries ==> Held(d, e.beforePath, Some(e.before), outside)
  }

  /** Durably create the prepared journal. */
  method CreateJournal(fs: FileSystem, txn: Txn)
    returns (s: Status, ghost stage: Path)
    requires fs.Valid() && ProperNames(txn) && Keeps(fs.disk, In(Staging, txn, fs.outside))
    modifies fs`disk, fs`faults, fs`replaced
    ensures Keeps(fs.disk, In(Staging, txn, fs.outside)) && fs.replaced == old(fs.replaced)
    ensures Spares(old(fs.disk), fs.disk, {stage, txn.journal}) && stage !in Visible(old(fs.disk))
    ensures Drawable(txn.journal.dir, JournalStage(0), stage)
    ensures s.Ok? ==> Held(fs.disk, txn.journal, Some(BytesOf(txn, Prepared)), {})
    ensures DiesBeforeFlush(old(fs.faults)) && txn.journal !in Visible(old(fs.disk)) ==>
      && s.Crashed? && Get(Visible(fs.disk), txn.journal) == Some(BytesOf(txn, Prepared))
      && exists m :: m in Images(fs.disk) && txn.journal !in m
    ensures old(fs.Steady()) && txn.journal !in Visible(old(fs.disk)) ==> fs.Met(old(fs.Trouble()), s)
  {
    HelpersIgnored(Staging, txn, fs.outside, fs.disk);
    JournalStepAccepted(Staging, txn, fs.outside, Put(txn.journal, BytesOf(txn, Prepared)), Prepared);
    s, stage := fs.AtomicCreateBytes(txn.journal, BytesOf(txn, Prepared), In(Staging, txn, fs.outside));
  }

  /** Durably publish the prepared journal, then read it back. */
  method PublishJournal(fs: FileSystem, txn: Txn, rewrites: seq<Rewrite>) returns (s: Status)
    requires fs.Valid() && txn.journal.name.JournalFile? && ProperRewrites(txn.journal, rewrites)
    requires |txn.entries| == |rewrites|
    requires Keeps(fs.disk, Idle(txn.journal, rewrites, fs.outside))
    requires StagedUpTo(fs.disk, txn.entries, txn.journal, rewrites, fs.outside)
    modifies fs`disk, fs`faults, fs`edits, fs`replaced
    ensures fs.Valid() && fs.replaced == old(fs.replaced)
    ensures Corresponds(txn.entries, rewrites) && ProperNames(txn)
    ensures Keeps(fs.disk, In(Staging, txn, fs.outside))
    ensures s.Ok? ==>
      && ValidRoles(txn) && Keeps(fs.disk, In(Applying, txn, fs.outside))
      && ToApply(txn, fs.outside, fs.disk, 0) && BeforesHeld(txn, fs.outside, fs.disk)
      && Held(fs.disk, txn.journal, Some(BytesOf(txn, Prepared)), fs.outside)
    // dying between the link and its flush leaves a journal that is there and can still be lost
    ensures DiesBeforeFlush(old(fs.faults)) && txn.journal !in Visible(old(fs.disk)) ==>
      && s.Crashed? && Get(Visible(fs.disk), txn.journal) == Some(BytesOf(txn, Prepared))
      && (exists m :: m in Images(fs.disk) && txn.journal !in m)
      && StagedUpTo(fs.disk, txn.entries, txn.journal, rewrites, fs.outside)
    ensures s.Ok? ==> SparesAllButJournal(old(fs.disk), fs.disk, txn.journal) && fs.edits == old(fs.edits)
    // one bad step leaves no journal behind, unless it could not be read back, and no destination changed
    ensures old(fs.Orderly()) && OnlyDocuments(fs.outside, txn.journal) ==>
      fs.Met(old(fs.Trouble()), s) && (s.Failed? ==> Unpublished(txn, fs.outside, old(fs.disk), fs.disk))
    ensures old(fs.faults) == [] && OnlyDocuments(fs.outside, txn.journal) ==> s.Ok? && fs.faults == []
    ensures old(fs.edits) == [] ==> fs.edits == []
    ensures !s.Exists?
  {
    ghost var start := fs.disk;
    ReadyToPublish(txn, rewrites, fs.outside, start);
    ghost var stage;
    s, stage := CreateJournal(fs, txn);
    if s.Crashed? {
      if txn.journal !in Visible(start) {
        StagedSpared(start, fs.disk, {stage, txn.journal}, txn.entries, txn.journal, rewrites, fs.outside);
      }
      return;
    }
    if !s.Ok? {
      s := AbandonPublication(fs, txn, rewrites, s, start, stage);
      PreparedOrAbsent(txn, fs.outside, fs.disk);
      return;
    }
    Published(txn, rewrites, fs.outside, start, fs.disk, stage);
    assert SparesAllButJournal(start, fs.disk, txn.journal);
    s := ReadBack(fs, txn);
    StillAround(txn, fs.outside, start, fs.disk);
  }

  /** A failed publication: the journal is there, or every stage is durably gone; nothing else has
      changed. */
  ghost predicate Unpublished(txn: Txn, outside: set<Path>, a: Disk, b: Disk)
  {
    && Get(Visible(b), txn.journal) in {None, Some(BytesOf(txn, Prepared))}
    && (txn.journal !in Visible(b) ==> StagesDurablyGone(txn, outside, b))
    && SparesAround(txn, a, b)
  }

  lemma StillAround(txn: Txn, outside: set<Path>, a: Disk, b: Disk)
    requires SparesAllButJournal(a, b, txn.journal) && Get(Visible(b), txn.journal) == Some(BytesOf(txn, Prepared))
    ensures Unpublished(txn, outside, a, b)
  {
    ButJournalIsAround(txn, a, b);
  }

  /** The journal could not be created: clean up after it. */
  method AbandonPublication(fs: FileSystem, txn: Txn, rewrites: seq<Rewrite>, primary: Status, ghost start: Disk,
                            ghost stage: Path)
    returns (s: Status)
    requires fs.Valid() && ProperNames(txn) && Corresponds(txn.entries, rewrites)
    requires Keeps(fs.disk, In(Staging, txn, fs.outside)) && primary in {Failed, Exists}
    requires StagedUpTo(start, txn.entries, txn.journal, rewrites, fs.outside)
    requires Spares(start, fs.disk, {stage, txn.journal}) && stage !in Visible(start)
    requires Drawable(txn.journal.dir, JournalStage(0), stage)
    modifies fs`disk, fs`faults, fs`edits, fs`replaced
    ensures fs.Valid() && fs.replaced == old(fs.replaced) && Keeps(fs.disk, In(Staging, txn, fs.outside))
    ensures s.Failed? || s.Crashed?
    ensures old(fs.Calm()) && OnlyDocuments(fs.outside, txn.journal) && ValidRoles(txn) ==>
      fs.Calm() && s.Failed? && StagesDurablyGone(txn, fs.outside, fs.disk) && SparesAround(txn, start, fs.disk)
    ensures (&& old(fs.Calm()) && OnlyDocuments(fs.outside, txn.journal) && ValidRoles(txn) && primary.Failed?)
      ==> txn.journal !in Visible(fs.disk)
    ensures old(fs.edits) == [] ==> fs.edits == []
  {
    StagesWait(txn, rewrites, fs.outside, start, fs.disk, stage);
    ghost var mid := fs.disk;
    var crashed, noted := CleanupFailedPublication(fs, txn, rewrites, primary);
    AroundTwice(txn, start, mid, fs.disk, stage);
    s := if crashed then Crashed else Failed;
  }

  lemma AroundTwice(txn: Txn, a: Disk, b: Disk, c: Disk, h: Path)
    requires Drawable(txn.journal.dir, JournalStage(0), h) && h !in Visible(a) && Spares(a, b, {h, txn.journal})
    ensures Spares(b, c, Removable(txn)) ==> SparesAround(txn, a, c)
  {
    if Spares(b, c, Removable(txn)) {
      SparesTwice(a, b, c, Removable(txn) + {h}, Removable(txn));
    }
  }

  /** A failed publication has left the stages where they were. */
  lemma StagesWait(txn: Txn, rewrites: seq<Rewrite>, outside: set<Path>, a: Disk, b: Disk, h: Path)
    requires StagedUpTo(a, txn.entries, txn.journal, rewrites, outside) && Spares(a, b, {h, txn.journal})
    requires h !in Visible(a) && ProperNames(txn)
    ensures OnlyDocuments(outside, txn.journal) ==> StagesPlain(txn, b) && AllAuthentic(txn, Visible(b))
  {
    if OnlyDocuments(outside, txn.journal) {
      StagedForSure(a, txn.entries, txn.journal, rewrites, outside);
      var staged := StagedArtifacts(txn.entries);
      forall s | s in staged ensures Authentic(Visible(b), s) && s.path in Visible(b) {
        var k :| 0 <= k < |staged| && staged[k] == s;
        var e := txn.entries[k / 2];
        assert e in txn.entries && (k == 2 * (k / 2) || k == 2 * (k / 2) + 1);
        assert Held(a, s.path, Some(s.image), {}) && s.path in Visible(a);
      }
      forall e | e in txn.entries ensures Plain(b, e.beforePath) && Plain(b, e.afterPath) {
        assert Held(a, e.beforePath, Some(e.before), {}) && Held(a, e.afterPath, Some(e.after), {});
        assert e.beforePath in Visible(a) && e.afterPath in Visible(a);
      }
    }
  }

  lemma ReadyToPublish(txn: Txn, rewrites: seq<Rewrite>, outside: set<Path>, d: Disk)
    requires txn.journal.name.JournalFile? && ProperRewrites(txn.journal, rewrites)
    requires |txn.entries| == |rewrites| && Keeps(d, Idle(txn.journal, rewrites, outside))
    requires StagedUpTo(d, txn.entries, txn.journal, rewrites, outside)
    ensures Keeps(d, In(Staging, txn, outside)) && ProperNames(txn) && Corresponds(txn.entries, rewrites)
    ensures OnlyDocuments(outside, txn.journal) ==> ValidRoles(txn) && txn.journal !in Visible(d)
  {
    assert rewrites[..|rewrites|] == rewrites;
    StagedAll(txn, rewrites, outside, d);
    KeepsVisible(d, Idle(txn.journal, rewrites, outside));
    assert IdleAt(txn.journal, rewrites, outside, Visible(d));
    if OnlyDocuments(outside, txn.journal) {
      StagedForSure(d, txn.entries, txn.journal, rewrites, outside);
      RolesFromNames(txn, rewrites, d);
    }
  }

  /** Load the journal just published. */
  method ReadBack(fs: FileSystem, txn: Txn) returns (s: Status)
    requires fs.Valid() && Get(Visible(fs.disk), txn.journal) == Some(BytesOf(txn, Prepared))
    modifies fs`faults
    ensures s.Ok? ==> ValidRoles(txn)
    ensures !s.Exists?
    ensures old(fs.Steady()) && ValidRoles(txn) ==> fs.Met(old(fs.Trouble()), s)
  {
    if fs.Steady() { NextOfTroubled(fs.faults); }
    var state, loaded;
    s, state, loaded := LoadJournal(fs, txn.journal);
    assert s.Ok? ==> loaded == txn;
    assert txn.journal == txn.journal && Get(Visible(fs.disk), txn.journal) == Some(BytesOf(txn, Prepared));
  }

  lemma Published(txn: Txn, rewrites: seq<Rewrite>, outside: set<Path>, a: Disk, b: Disk, stage: Path)
    requires ProperNames(txn) && Corresponds(txn.entries, rewrites)
    requires StagedUpTo(a, txn.entries, txn.journal, rewrites, outside)
    requires Keeps(b, In(Staging, txn, outside)) && Spares(a, b, {stage, txn.journal})
    requires stage !in Visible(a) && Held(b, txn.journal, Some(BytesOf(txn, Prepared)), {})
    ensures Keeps(b, In(Applying, txn, outside)) && ToApply(txn, outside, b, 0) && BeforesHeld(txn, outside, b)
  {
    forall e | e in txn.entries
      ensures Held(b, e.beforePath, Some(e.before), outside)
      ensures Held(b, e.afterPath, Some(e.after), outside)
    {
      assert Held(a, e.beforePath, Some(e.before), outside) && Held(a, e.afterPath, Some(e.after), outside);
      HeldSpared(a, b, {stage, txn.journal}, e.beforePath, Some(e.before), outside);
      HeldSpared(a, b, {stage, txn.journal}, e.afterPath, Some(e.after), outside);
    }
    Armed(txn, outside, b);
    KeepsVisible(b, In(Staging, txn, outside));
    assert PhaseAt(Staging, txn, outside, Visible(b), Visible(b));
    forall k | 0 <= k < |txn.entries| && txn.journal !in outside
      ensures BeforeAt(txn.entries[k], outside, Visible(b))
    {
      assert EntryAt(Staging, txn.journal, txn.entries[k], outside, Visible(b), Visible(b));
    }
  }

  /** Stage exact images and durably publish an ordered prepared journal. No destination is
      changed, whatever happens; a journal that is already there refuses the whole attempt. */
  method PrepareTransaction(fs: FileSystem, journal: Path, rewrites: seq<Rewrite>)
    returns (s: Status, txn: Txn, left: Left)
    requires fs.Valid() && journal.name.JournalFile?
    requires journal in Visible(fs.disk) || Keeps(fs.disk, Idle(journal, rewrites, fs.outside))
    modifies fs`disk, fs`faults, fs`edits, fs`replaced
    ensures fs.Valid() && fs.replaced == old(fs.replaced)
    ensures Stands(left, journal, rewrites, fs.outside, fs.disk)
    ensures left in {NoJournal, Refused, During(Staging, txn), During(Applying, txn)}
    ensures left.Refused? <==> journal in Visible(old(fs.disk))
    ensures left.Refused? ==> fs.disk == old(fs.disk) && fs.edits == old(fs.edits)
    ensures s.Ok? <==> left == During(Applying, txn)
    ensures s.Ok? ==>
      && ToApply(txn, fs.outside, fs.disk, 0) && BeforesHeld(txn, fs.outside, fs.disk)
      && Held(fs.disk, journal, Some(BytesOf(txn, Prepared)), fs.outside)
    ensures s.Ok? && OnlyDocuments(fs.outside, journal) ==>
      SameDestinations(rewrites, Visible(old(fs.disk)), Visible(fs.disk), old(fs.Editable()))
    // one bad step leaves no journal behind, unless it could not be read back, and no destination changed
    ensures (&& old(fs.Orderly()) && OnlyDocuments(fs.outside, journal) && ProperRewrites(journal, rewrites)
             && journal !in Visible(old(fs.disk)))
      ==> && fs.Met(old(fs.Trouble()), s)
          && (!s.Crashed? ==> SameDestinations(rewrites, Visible(old(fs.disk)), Visible(fs.disk), {}))
          && (s.Failed? && journal in Visible(fs.disk) ==> left == During(Staging, txn))
    // whatever others do to documents, it succeeds if no step fails
    ensures (&& old(fs.faults) == [] && OnlyDocuments(fs.outside, journal) && ProperRewrites(journal, rewrites)
             && journal !in Visible(old(fs.disk)))
      ==> s.Ok? && fs.faults == []
    ensures old(fs.edits) == [] ==> fs.edits == []
  {
    left, txn := if journal in Visible(fs.disk) then Refused else NoJournal, Txn(journal, []);
    var content;
    s, content := fs.Read(journal);
    if s.Ok? && content.Some? { s := Failed; }
    if !s.Ok? { return; }
    var proper := PreflightRewriteDestinations(journal, rewrites);
    if !proper { return Failed, txn, left; }
    s, txn, left := StageAndPublish(fs, journal, rewrites);
  }

  /** Stage a batch that may be staged, and publish its journal. */
  method StageAndPublish(fs: FileSystem, journal: Path, rewrites: seq<Rewrite>)
    returns (s: Status, txn: Txn, left: Left)
    requires fs.Valid() && journal.name.JournalFile? && ProperRewrites(journal, rewrites)
    requires Keeps(fs.disk, Idle(journal, rewrites, fs.outside)) && journal !in Visible(fs.disk)
    modifies fs`disk, fs`faults, fs`edits, fs`replaced
    ensures fs.Valid() && fs.replaced == old(fs.replaced)
    ensures Stands(left, journal, rewrites, fs.outside, fs.disk)
    ensures left in {NoJournal, During(Staging, txn), During(Applying, txn)}
    ensures s.Ok? <==> left == During(Applying, txn)
    ensures s.Ok? ==>
      && ToApply(txn, fs.outside, fs.disk, 0) && BeforesHeld(txn, fs.outside, fs.disk)
      && Held(fs.disk, journal, Some(BytesOf(txn, Prepared)), fs.outside)
    ensures s.Ok? && OnlyDocuments(fs.outside, journal) ==>
      SameDestinations(rewrites, Visible(old(fs.disk)), Visible(fs.disk), old(fs.Editable()))
    ensures old(fs.Orderly()) && OnlyDocuments(fs.outside, journal) ==>
      && fs.Met(old(fs.Trouble()), s)
      && (s.Failed? ==> SameDestinations(rewrites, Visible(old(fs.disk)), Visible(fs.disk), {}))
      && (s.Failed? && journal in Visible(fs.disk) ==> left == During(Staging, txn))
    ensures old(fs.faults) == [] && OnlyDocuments(fs.outside, journal) ==> s.Ok? && fs.faults == []
    ensures old(fs.edits) == [] ==> fs.edits == []
    ensures !s.Exists?
  {
    left, txn := NoJournal, Txn(journal, []);
    var entries, noted;
    s, entries, noted := StageImages(fs, journal, rewrites);
    if !s.Ok? {
      assert noted == {} && old(fs.edits) == [] ==> old(fs.Editable()) + noted == {};
      Untouched(old(fs.disk), fs.disk, rewrites);
      return;
    }
    txn := Txn(journal, entries);
    ghost var mid := fs.disk;
    s := PublishJournal(fs, txn, rewrites);
    left := During(if s.Ok? then Applying else Staging, txn);
    if OnlyDocuments(fs.outside, journal) {
      if s.Ok? { ButJournalIsAround(txn, mid, fs.disk); }
      if SparesAround(txn, mid, fs.disk) {
        NoDestinationTouched(old(fs.disk), mid, fs.disk, txn, rewrites, old(fs.Editable()), fs.outside);
      }
    }
  }

  lemma Untouched(a: Disk, b: Disk, rewrites: seq<Rewrite>)
    ensures Spares(a, b, {}) ==>
      SameDestinations(rewrites, Visible(a), Visible(b), {}) && Visible(a).Keys == Visible(b).Keys
  {
    if Spares(a, b, {}) {
      forall p ensures p in Visible(a) <==> p in Visible(b) {
        assert Get(Visible(a), p) == Get(Visible(b), p);
      }
    }
  }

  /** No destination but those others may edit is any different. */
  ghost predicate SameDestinations(rewrites: seq<Rewrite>, v: Namespace, w: Namespace, editable: set<Path>)
  {
    forall r :: r in rewrites && r.destination !in editable ==> Get(w, r.destination) == Get(v, r.destination)
  }

  lemma NoDestinationTouched(a: Disk, b: Disk, c: Disk, txn: Txn, rewrites: seq<Rewrite>, editable: set<Path>,
                             outside: set<Path>)
    requires OnlyStaged(a, b, txn.entries, editable, outside) && SparesAround(txn, b, c)
    requires StagedUpTo(b, txn.entries, txn.journal, rewrites, outside) && OnlyDocuments(outside, txn.journal)
    requires Keeps(a, Idle(txn.journal, rewrites, outside)) && ProperRewrites(txn.journal, rewrites)
    ensures SameDestinations(rewrites, Visible(a), Visible(c), editable)
  {
    StagedForSure(b, txn.entries, txn.journal, rewrites, outside);
    KeepsVisible(a, Idle(txn.journal, rewrites, outside));
    assert IdleAt(txn.journal, rewrites, outside, Visible(a));
    forall r | r in rewrites && r.destination !in editable
      ensures Get(Visible(c), r.destination) == Get(Visible(a), r.destination)
    {
      NoStage(b, txn, rewrites, r);
      assert r.destination !in editable + StageSet(StagePaths(txn.entries));
      assert r.destination in outside || r.destination in Visible(a);
    }
  }

  lemma NoStage(d: Disk, txn: Txn, rewrites: seq<Rewrite>, r: Rewrite)
    requires StagedUpTo(d, txn.entries, txn.journal, rewrites, {}) && r in rewrites
    requires ProperRewrites(txn.journal, rewrites)
    ensures r.destination !in StagePaths(txn.entries) && r.destination !in Removable(txn)
  {
    var staged := StagedArtifacts(txn.entries);
    forall k | 0 <= k < |staged| ensures staged[k].path != r.destination {
      assert txn.entries[k / 2] in txn.entries && (k == 2 * (k / 2) || k == 2 * (k / 2) + 1);
    }
    forall p | p in StagePaths(txn.entries) ensures p != r.destination {
      var e :| e in txn.entries && p in {e.beforePath, e.afterPath};
    }
  }
}
