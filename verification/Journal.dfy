/** What a reconcile journal says, the path roles it must respect, and the claims that hold of
    every crash image in each phase of a transaction. */
module JournalModel {
  import opened Storage
  import opened Wrappers
  import opened Persistence

  datatype Rewrite = Rewrite(destination: Path, before: Content, after: Content)

  /** A transaction: its journal path and its ordered entries. */
  datatype Txn = Txn(journal: Path, entries: seq<Entry>)

  function BytesOf(txn: Txn, state: JournalState): Content
  {
    Journal(state, txn.entries)
  }

  /** One staged image: its path and the content its recorded digest stands for. */
  datatype Artifact = Artifact(path: Path, image: Content)

  function StagedArtifacts(entries: seq<Entry>): (r: seq<Artifact>)
    ensures |r| == 2 * |entries|
    ensures forall i :: 0 <= i < |entries| ==>
      && r[2 * i] == Artifact(entries[i].beforePath, entries[i].before)
      && r[2 * i + 1] == Artifact(entries[i].afterPath, entries[i].after)
  {
    if entries == [] then []
    else
      var n := |entries| - 1;
      StagedArtifacts(entries[..n])
      + [Artifact(entries[n].beforePath, entries[n].before),
         Artifact(entries[n].afterPath, entries[n].after)]
  }

  // ---- path roles --------------------------------------------------------------------

  predicate NamesMatch(e: Entry) {
    && Drawable(e.destination.dir, ImageStage(Before, e.destination.name, 0), e.beforePath)
    && Drawable(e.destination.dir, ImageStage(After, e.destination.name, 0), e.afterPath)
  }

  /** No alias between the journal, the destinations and the artifacts, and every artifact
      named for its destination and role. */
  ghost predicate ValidRoles(txn: Txn)
  {
    && (forall i :: 0 <= i < |txn.entries| ==> txn.entries[i].destination != txn.journal)
    && (forall i, j :: 0 <= i < j < |txn.entries| ==>
          txn.entries[i].destination != txn.entries[j].destination)
    && (var a := StagedArtifacts(txn.entries);
        && (forall k :: 0 <= k < |a| ==> a[k].path != txn.journal)
        && (forall k, i :: 0 <= k < |a| && 0 <= i < |txn.entries| ==>
              a[k].path != txn.entries[i].destination)
        && (forall k, l :: 0 <= k < l < |a| ==> a[k].path != a[l].path))
    && (forall i :: 0 <= i < |txn.entries| ==> NamesMatch(txn.entries[i]))
  }

  /** The paths of one entry never meet those of another, nor the journal. */
  lemma EntriesApart(txn: Txn, e: Entry, f: Entry)
    requires ValidRoles(txn) && e in txn.entries && f in txn.entries
    ensures txn.journal !in {e.destination, e.beforePath, e.afterPath}
    ensures e.destination !in {f.beforePath, f.afterPath} && e.beforePath != f.afterPath
    ensures e != f ==>
      e.destination != f.destination && e.beforePath != f.beforePath && e.afterPath != f.afterPath
    ensures NamesMatch(e)
  {
    var i :| 0 <= i < |txn.entries| && txn.entries[i] == e;
    var j :| 0 <= j < |txn.entries| && txn.entries[j] == f;
    var a := StagedArtifacts(txn.entries);
    assert a[2 * i].path == e.beforePath && a[2 * i + 1].path == e.afterPath;
    assert a[2 * j].path == f.beforePath && a[2 * j + 1].path == f.afterPath;
    assert a[2 * i].path != txn.journal && a[2 * i + 1].path != txn.journal;
  }

  /** What names alone guarantee, before any alias check has run. */
  ghost predicate ProperNames(txn: Txn)
  {
    txn.journal.name.JournalFile? &&
    forall e :: e in txn.entries ==> NamesMatch(e) && e.destination != txn.journal
  }

  lemma ValidRolesHaveProperNames(txn: Txn)
    requires ValidRoles(txn) && txn.journal.name.JournalFile?
    ensures ProperNames(txn)
  {
    forall e | e in txn.entries ensures NamesMatch(e) && e.destination != txn.journal {
      EntriesApart(txn, e, e);
    }
  }

  // ---- claims ------------------------------------------------------------------------

  /** Phases of a transaction, by what a crash may leave.
      - Staging: every destination at its before image; the journal prepared or not yet there.
      - Applying: the journal durably prepared, each before stage durably there.
      - Marking: every destination durably at its after image; either marker may survive.
      - Rolling: prepared; gone only with every stage, and with everything at before.
      - Clearing: committed; gone only with every stage. Every destination durably at after.
      - Closing: no stage is left and every destination is durably on its side; the journal,
        which says `state`, may go. */
  datatype Phase = Staging | Applying | Marking | Rolling | Clearing | Closing(state: JournalState)

  /** The phases a rollback runs in: its journal was never durably published, or it was. */
  predicate Reverting(phase: Phase) {
    phase.Staging? || phase.Rolling?
  }

  ghost predicate BeforeAt(e: Entry, outside: set<Path>, m: Namespace)
  {
    e.destination in outside || Get(m, e.destination) == Some(e.before)
  }

  ghost predicate AfterAt(e: Entry, outside: set<Path>, m: Namespace)
  {
    e.destination in outside || Get(m, e.destination) == Some(e.after)
  }

  ghost predicate BeforeHeld(e: Entry, outside: set<Path>, m: Namespace)
  {
    e.beforePath in outside || Get(m, e.beforePath) == Some(e.before)
  }

  ghost predicate StagesExact(e: Entry, outside: set<Path>, m: Namespace)
  {
    && (e.beforePath in outside || Get(m, e.beforePath) in {None, Some(e.before)})
    && (e.afterPath in outside || Get(m, e.afterPath) in {None, Some(e.after)})
  }

  ghost predicate StagesGone(e: Entry, outside: set<Path>, m: Namespace)
  {
    && (e.beforePath in outside || e.beforePath !in m)
    && (e.afterPath in outside || e.afterPath !in m)
  }

  /** The destination is at the image `state` stands for. */
  ghost predicate OnSide(e: Entry, state: JournalState, outside: set<Path>, m: Namespace)
  {
    if state.Prepared? then BeforeAt(e, outside, m) else AfterAt(e, outside, m)
  }

  /** The write-ahead condition for one destination under a prepared journal: it is at its
      before image, or at its after image with its exact before stage beside it. The second
      conjunct relates a crash image to what is visible: a before stage may be dropped only
      where no crash can bring the after image back. */
  ghost predicate Restorable(e: Entry, outside: set<Path>, m: Namespace, v: Namespace)
  {
    e.destination in outside ||
    (&& (BeforeAt(e, outside, m) || (AfterAt(e, outside, m) && BeforeHeld(e, outside, m)))
     && (e.beforePath !in outside && e.beforePath in v && BeforeAt(e, outside, v)
         ==> BeforeAt(e, outside, m)))
  }

  ghost predicate JournalAt(phase: Phase, txn: Txn, m: Namespace)
  {
    var j := Get(m, txn.journal);
    match phase
    case Staging => j in {None, Some(BytesOf(txn, Prepared))}
    case Applying => j == Some(BytesOf(txn, Prepared))
    case Marking => j in {Some(BytesOf(txn, Prepared)), Some(BytesOf(txn, Committed))}
    case Rolling => j in {None, Some(BytesOf(txn, Prepared))}
    case Clearing => j in {None, Some(BytesOf(txn, Committed))}
    case Closing(state) => j in {None, Some(BytesOf(txn, state))}
  }

  ghost predicate EntryAt(phase: Phase, journal: Path, e: Entry, outside: set<Path>,
                          m: Namespace, v: Namespace)
  {
    && StagesExact(e, outside, m)
    && match phase
       case Staging => BeforeAt(e, outside, m)
       case Applying => Restorable(e, outside, m, v)
                        && (e.destination in outside || BeforeHeld(e, outside, m))
       case Marking => AfterAt(e, outside, m)
                       && (e.destination in outside || BeforeHeld(e, outside, m))
       case Rolling => Restorable(e, outside, m, v)
                       && (journal !in m ==> BeforeAt(e, outside, m) && StagesGone(e, outside, m))
       case Clearing => AfterAt(e, outside, m) && (journal !in m ==> StagesGone(e, outside, m))
       case Closing(state) => OnSide(e, state, outside, m) && StagesGone(e, outside, m)
  }

  /** The phase's claim. Nothing is claimed once other processes may edit the journal. */
  ghost predicate PhaseAt(phase: Phase, txn: Txn, outside: set<Path>, m: Namespace, v: Namespace)
  {
    txn.journal in outside ||
    (JournalAt(phase, txn, m)
     && forall e :: e in txn.entries ==> EntryAt(phase, txn.journal, e, outside, m, v))
  }

  ghost function In(phase: Phase, txn: Txn, outside: set<Path>): Claim
  {
    (m, v) => PhaseAt(phase, txn, outside, m, v)
  }

  /** Before any journal is published: every destination at its before image, no journal. */
  ghost predicate IdleAt(journal: Path, rewrites: seq<Rewrite>, outside: set<Path>, m: Namespace)
  {
    journal in outside ||
    (journal !in m && forall r :: r in rewrites ==>
       r.destination in outside || Get(m, r.destination) == Some(r.before))
  }

  ghost function Idle(journal: Path, rewrites: seq<Rewrite>, outside: set<Path>): Claim
  {
    (m, v) => IdleAt(journal, rewrites, outside, m)
  }

  // ---- what each phase ignores -------------------------------------------------------

  /** A path that is no part of the transaction, or that other processes may edit anyway. */
  ghost predicate Free(txn: Txn, outside: set<Path>, p: Path)
  {
    p in outside || (p != txn.journal && forall e :: e in txn.entries ==>
      p != e.destination && p != e.beforePath && p != e.afterPath)
  }

  lemma PhaseIgnores(phase: Phase, txn: Txn, outside: set<Path>, p: Path)
    requires Free(txn, outside, p)
    ensures Ignores(In(phase, txn, outside), p)
  {
    forall op: Op, m, v | op.path == p && !op.Move? && PhaseAt(phase, txn, outside, m, v)
      ensures PhaseAt(phase, txn, outside, m, Apply(v, op))
      ensures PhaseAt(phase, txn, outside, Apply(m, op), Apply(v, op))
    {
      if txn.journal !in outside {
        assert Get(Apply(m, op), txn.journal) == Get(m, txn.journal);
        forall e | e in txn.entries
          ensures EntryAt(phase, txn.journal, e, outside, m, Apply(v, op))
          ensures EntryAt(phase, txn.journal, e, outside, Apply(m, op), Apply(v, op))
        {
          assert EntryAt(phase, txn.journal, e, outside, m, v);
        }
      }
    }
  }

  lemma OutsideIgnored(phase: Phase, txn: Txn, outside: set<Path>)
    ensures forall p :: p in outside ==> Ignores(In(phase, txn, outside), p)
  {
    forall p | p in outside ensures Ignores(In(phase, txn, outside), p) {
      PhaseIgnores(phase, txn, outside, p);
    }
  }

  lemma IdleIgnores(journal: Path, rewrites: seq<Rewrite>, outside: set<Path>, p: Path)
    requires p in outside
          || (p != journal && forall r :: r in rewrites && r.destination == p ==> p in outside)
    ensures Ignores(Idle(journal, rewrites, outside), p)
  {
  }

  /** A path a helper may still draw is free: no destination we answer for is missing. */
  lemma HelperIsFree(phase: Phase, txn: Txn, outside: set<Path>, d: Disk, h: Path)
    requires ProperNames(txn) && Keeps(d, In(phase, txn, outside))
    requires h.name.JournalStage? && h !in Visible(d) && txn.journal !in outside
    ensures Free(txn, outside, h)
  {
    KeepsVisible(d, In(phase, txn, outside));
    assert PhaseAt(phase, txn, outside, Visible(d), Visible(d));
    forall e | e in txn.entries
      ensures h in outside || (h != e.destination && h != e.beforePath && h != e.afterPath)
    {
      assert EntryAt(phase, txn.journal, e, outside, Visible(d), Visible(d));
    }
  }

  lemma HelpersIgnored(phase: Phase, txn: Txn, outside: set<Path>, d: Disk)
    requires ProperNames(txn) && Keeps(d, In(phase, txn, outside))
    ensures forall h: Path :: h.name.JournalStage? && h !in Visible(d) ==>
              Ignores(In(phase, txn, outside), h)
              && (txn.journal in outside || Free(txn, outside, h))
  {
    forall h: Path | h.name.JournalStage? && h !in Visible(d)
      ensures Ignores(In(phase, txn, outside), h)
      ensures txn.journal in outside || Free(txn, outside, h)
    {
      if txn.journal !in outside {
        HelperIsFree(phase, txn, outside, d, h);
        PhaseIgnores(phase, txn, outside, h);
      }
    }
  }

  // ---- one step keeps the claim ------------------------------------------------------

  /** Renaming an after stage over a destination that still holds its before image. */
  lemma ApplyKeepsApplying(txn: Txn, outside: set<Path>, d: Disk, e: Entry)
    requires ValidRoles(txn) && e in txn.entries && Keeps(d, In(Applying, txn, outside))
    requires Get(Visible(d), e.destination) == Some(e.before)
    ensures e.afterPath.dir == e.destination.dir
    ensures Keeps(Append(d, Move(e.afterPath, e.destination, e.after)), In(Applying, txn, outside))
  {
    EntriesApart(txn, e, e);
    var op: Op := Move(e.afterPath, e.destination, e.after);
    var v := Visible(d);
    forall m | m in Images(d)
      ensures PhaseAt(Applying, txn, outside, m, Apply(v, op))
      ensures PhaseAt(Applying, txn, outside, Apply(m, op), Apply(v, op))
    {
      assert PhaseAt(Applying, txn, outside, m, v);
      if txn.journal !in outside {
        forall f | f in txn.entries
          ensures EntryAt(Applying, txn.journal, f, outside, m, Apply(v, op))
          ensures EntryAt(Applying, txn.journal, f, outside, Apply(m, op), Apply(v, op))
        {
          EntriesApart(txn, e, f);
          EntriesApart(txn, f, e);
          assert EntryAt(Applying, txn.journal, f, outside, m, v);
        }
      }
    }
    KeepsAppend(d, op, In(Applying, txn, outside));
  }

  /** Renaming a before stage over a destination that holds its after image. */
  lemma RestoreKeepsRolling(phase: Phase, txn: Txn, outside: set<Path>, d: Disk, e: Entry)
    requires ValidRoles(txn) && e in txn.entries && Keeps(d, In(phase, txn, outside))
    requires Reverting(phase)
    requires Get(Visible(d), e.destination) == Some(e.after)
    requires Get(Visible(d), e.beforePath) == Some(e.before)
    ensures e.beforePath.dir == e.destination.dir
    ensures Keeps(Append(d, Move(e.beforePath, e.destination, e.before)), In(phase, txn, outside))
  {
    EntriesApart(txn, e, e);
    var op: Op := Move(e.beforePath, e.destination, e.before);
    var v := Visible(d);
    forall m | m in Images(d)
      ensures PhaseAt(phase, txn, outside, m, Apply(v, op))
      ensures PhaseAt(phase, txn, outside, Apply(m, op), Apply(v, op))
    {
      assert PhaseAt(phase, txn, outside, m, v);
      if txn.journal !in outside {
        forall f | f in txn.entries
          ensures EntryAt(phase, txn.journal, f, outside, m, Apply(v, op))
          ensures EntryAt(phase, txn.journal, f, outside, Apply(m, op), Apply(v, op))
        {
          EntriesApart(txn, e, f);
          EntriesApart(txn, f, e);
          assert EntryAt(phase, txn.journal, f, outside, m, v);
        }
      }
    }
    KeepsAppend(d, op, In(phase, txn, outside));
  }

  /** Removing a stage once its destination is back at its before image, or is committed. */
  lemma DropStageKeeps(phase: Phase, txn: Txn, outside: set<Path>, d: Disk, e: Entry, p: Path)
    requires ValidRoles(txn) && e in txn.entries && Keeps(d, In(phase, txn, outside))
    requires phase.Rolling? || phase.Clearing? || phase.Staging?
    requires p == e.beforePath || p == e.afterPath
    requires p in Visible(d)
    requires phase.Rolling? && txn.journal !in outside ==> BeforeAt(e, outside, Visible(d))
    ensures Keeps(Append(d, Drop(p)), In(phase, txn, outside))
  {
    var v := Visible(d);
    forall m | m in Images(d)
      ensures PhaseAt(phase, txn, outside, m, Apply(v, Drop(p)))
      ensures PhaseAt(phase, txn, outside, Apply(m, Drop(p)), Apply(v, Drop(p)))
    {
      assert PhaseAt(phase, txn, outside, m, v);
      if txn.journal !in outside {
        EntriesApart(txn, e, e);
        forall f | f in txn.entries
          ensures EntryAt(phase, txn.journal, f, outside, m, Apply(v, Drop(p)))
          ensures EntryAt(phase, txn.journal, f, outside, Apply(m, Drop(p)), Apply(v, Drop(p)))
        {
          EntriesApart(txn, e, f);
          EntriesApart(txn, f, e);
          assert EntryAt(phase, txn.journal, f, outside, m, v);
        }
      }
    }
    KeepsAppend(d, Drop(p), In(phase, txn, outside));
  }

  /** Publishing, withdrawing or republishing the journal, where the phase allows either. */
  lemma JournalStepAccepted(phase: Phase, txn: Txn, outside: set<Path>, op: Op, state: JournalState)
    requires ProperNames(txn)
    requires op == Put(txn.journal, BytesOf(txn, state)) || (op == Drop(txn.journal) && !phase.Marking?)
          || (op.Move? && op.path == txn.journal && op.data == BytesOf(txn, state)
              && (txn.journal in outside || Free(txn, outside, op.from)))
    requires phase.Staging? ==> state.Prepared?
    requires phase.Closing? ==> state == phase.state
    requires phase.Staging? || phase.Closing? || phase.Marking?
    ensures Accepts(In(phase, txn, outside), op)
  {
    forall m, v | PhaseAt(phase, txn, outside, m, v)
      ensures PhaseAt(phase, txn, outside, m, Apply(v, op))
      ensures PhaseAt(phase, txn, outside, Apply(m, op), Apply(v, op))
    {
      if txn.journal !in outside {
        forall e | e in txn.entries
          ensures EntryAt(phase, txn.journal, e, outside, m, Apply(v, op))
          ensures EntryAt(phase, txn.journal, e, outside, Apply(m, op), Apply(v, op))
        {
          assert EntryAt(phase, txn.journal, e, outside, m, v);
        }
      }
    }
  }

  /** A stage nobody relies on yet may be removed while every destination is at before. */
  lemma UnpublishedDropAccepted(txn: Txn, outside: set<Path>, p: Path)
    requires txn.journal !in outside ==> p != txn.journal
    requires txn.journal !in outside ==>
      forall e :: e in txn.entries && e.destination == p ==> p in outside
    ensures Accepts(In(Staging, txn, outside), Drop(p))
  {
    forall m, v | PhaseAt(Staging, txn, outside, m, v)
      ensures PhaseAt(Staging, txn, outside, m, Apply(v, Drop(p)))
      ensures PhaseAt(Staging, txn, outside, Apply(m, Drop(p)), Apply(v, Drop(p)))
    {
      if txn.journal !in outside {
        forall e | e in txn.entries
          ensures EntryAt(Staging, txn.journal, e, outside, m, Apply(v, Drop(p)))
          ensures EntryAt(Staging, txn.journal, e, outside, Apply(m, Drop(p)), Apply(v, Drop(p)))
        {
          assert EntryAt(Staging, txn.journal, e, outside, m, v);
        }
      }
    }
  }

  // ---- the journal goes last ----------------------------------------------------------

  ghost predicate AllDone(m: Namespace, txn: Txn, state: JournalState, outside: set<Path>)
  {
    forall e :: e in txn.entries ==> StagesGone(e, outside, m) && OnSide(e, state, outside, m)
  }

  /** Every crash image that lacks the journal lacks every stage too, and has each destination at
      the image `state` stands for. */
  ghost predicate JournalLast(d: Disk, txn: Txn, state: JournalState, outside: set<Path>)
  {
    txn.journal in outside ||
    forall m :: m in Images(d) && txn.journal !in m ==> AllDone(m, txn, state, outside)
  }

  /** The side on which a phase ends. */
  function Side(phase: Phase): JournalState
  {
    match phase
    case Clearing => Committed
    case Closing(state) => state
    case _ => Prepared
  }

  /** From the moment the journal is durably published, it goes last: in every phase but the
      first, whatever a crash leaves. */
  lemma PhasesKeepJournalLast(phase: Phase, txn: Txn, outside: set<Path>, d: Disk)
    requires Keeps(d, In(phase, txn, outside)) && !phase.Staging?
    ensures JournalLast(d, txn, Side(phase), outside)
  {
    forall m | m in Images(d) && txn.journal !in m && txn.journal !in outside
      ensures AllDone(m, txn, Side(phase), outside)
    {
      assert PhaseAt(phase, txn, outside, m, Visible(d));
      forall e | e in txn.entries
        ensures StagesGone(e, outside, m) && OnSide(e, Side(phase), outside, m)
      {
        assert EntryAt(phase, txn.journal, e, outside, m, Visible(d));
      }
    }
  }

  // ---- passing from one phase to the next ---------------------------------------------

  lemma Weaken(stronger: Phase, weaker: Phase, txn: Txn, outside: set<Path>, d: Disk)
    requires Keeps(d, In(stronger, txn, outside))
    requires (stronger, weaker) in {(Applying, Rolling), (Staging, Rolling), (Closing(Prepared), Staging),
                                    (Closing(Prepared), Rolling), (Closing(Committed), Clearing)}
    requires stronger.Staging? ==> JournalLast(d, txn, Prepared, outside)
    ensures Keeps(d, In(weaker, txn, outside))
  {
    var v := Visible(d);
    forall m | m in Images(d) ensures PhaseAt(weaker, txn, outside, m, v) {
      assert PhaseAt(stronger, txn, outside, m, v);
      if txn.journal !in outside {
        forall e | e in txn.entries ensures EntryAt(weaker, txn.journal, e, outside, m, v) {
          assert EntryAt(stronger, txn.journal, e, outside, m, v);
          assert stronger.Staging? && txn.journal !in m ==> AllDone(m, txn, Prepared, outside);
        }
      }
    }
  }

  /** Every path we answer for is settled and holds `content`. */
  ghost predicate Held(d: Disk, p: Path, content: Option<Content>, outside: set<Path>)
  {
    p in outside || (Settled(d, p) && Get(Visible(d), p) == content)
  }

  /** No crash brings a stage of this entry back or takes its destination off its side. */
  ghost predicate Done(d: Disk, e: Entry, state: JournalState, outside: set<Path>)
  {
    && Held(d, e.beforePath, None, outside) && Held(d, e.afterPath, None, outside)
    && Held(d, e.destination, Some(if state.Prepared? then e.before else e.after), outside)
  }

  lemma Armed(txn: Txn, outside: set<Path>, d: Disk)
    requires Keeps(d, In(Staging, txn, outside))
    requires Held(d, txn.journal, Some(BytesOf(txn, Prepared)), outside)
    requires forall e :: e in txn.entries ==> Held(d, e.beforePath, Some(e.before), outside)
    ensures Keeps(d, In(Applying, txn, outside))
  {
    var v := Visible(d);
    forall m | m in Images(d) ensures PhaseAt(Applying, txn, outside, m, v) {
      assert PhaseAt(Staging, txn, outside, m, v);
      if txn.journal !in outside {
        forall e | e in txn.entries ensures EntryAt(Applying, txn.journal, e, outside, m, v) {
          assert EntryAt(Staging, txn.journal, e, outside, m, v);
        }
      }
    }
  }

  lemma AllApplied(txn: Txn, outside: set<Path>, d: Disk)
    requires Keeps(d, In(Applying, txn, outside))
    requires forall e :: e in txn.entries ==> Held(d, e.destination, Some(e.after), outside)
    ensures Keeps(d, In(Marking, txn, outside))
  {
    var v := Visible(d);
    forall m | m in Images(d) ensures PhaseAt(Marking, txn, outside, m, v) {
      assert PhaseAt(Applying, txn, outside, m, v);
      if txn.journal !in outside {
        forall e | e in txn.entries ensures EntryAt(Marking, txn.journal, e, outside, m, v) {
          assert EntryAt(Applying, txn.journal, e, outside, m, v);
        }
      }
    }
  }

  /** With every stage durably gone and every destination durably on its side, only the journal
      is left. */
  lemma Closed(phase: Phase, txn: Txn, state: JournalState, outside: set<Path>, d: Disk)
    requires Keeps(d, In(phase, txn, outside))
    requires if state.Prepared? then phase in {Staging, Rolling} else phase.Clearing?
    requires txn.journal in outside || forall e :: e in txn.entries ==> Done(d, e, state, outside)
    ensures Keeps(d, In(Closing(state), txn, outside))
  {
    var v := Visible(d);
    forall m | m in Images(d) ensures PhaseAt(Closing(state), txn, outside, m, v) {
      assert PhaseAt(phase, txn, outside, m, v);
      if txn.journal !in outside {
        forall e | e in txn.entries ensures EntryAt(Closing(state), txn.journal, e, outside, m, v) {
          assert EntryAt(phase, txn.journal, e, outside, m, v);
          assert Done(d, e, state, outside);
        }
      }
    }
  }

  ghost predicate Corresponds(entries: seq<Entry>, rewrites: seq<Rewrite>)
  {
    |entries| == |rewrites| && forall i :: 0 <= i < |entries| ==>
      && entries[i].destination == rewrites[i].destination
      && entries[i].before == rewrites[i].before && entries[i].after == rewrites[i].after
  }

  lemma StagedAll(txn: Txn, rewrites: seq<Rewrite>, outside: set<Path>, d: Disk)
    requires Keeps(d, Idle(txn.journal, rewrites, outside)) && Corresponds(txn.entries, rewrites)
    requires forall e :: e in txn.entries ==>
      Held(d, e.beforePath, Some(e.before), outside) && Held(d, e.afterPath, Some(e.after), outside)
    ensures Keeps(d, In(Staging, txn, outside))
  {
    var v := Visible(d);
    forall m | m in Images(d) ensures PhaseAt(Staging, txn, outside, m, v) {
      assert IdleAt(txn.journal, rewrites, outside, m);
      if txn.journal !in outside {
        forall e | e in txn.entries ensures EntryAt(Staging, txn.journal, e, outside, m, v) {
          var i :| 0 <= i < |txn.entries| && txn.entries[i] == e;
          assert rewrites[i] in rewrites;
        }
      }
    }
  }

  /** No crash can leave both markers: all crash images that carry one carry the same. */
  ghost predicate MarkerDecided(d: Disk, txn: Txn)
  {
    forall m, n :: m in Images(d) && n in Images(d) ==>
      !(Get(m, txn.journal) == Some(BytesOf(txn, Prepared))
        && Get(n, txn.journal) == Some(BytesOf(txn, Committed)))
  }

  /** While marking, once the marker is decided the transaction is in one of the two phases
      recovery can continue from. */
  lemma MarkerDecides(txn: Txn, outside: set<Path>, d: Disk)
    requires Keeps(d, In(Marking, txn, outside)) && MarkerDecided(d, txn)
    requires txn.journal !in outside
    ensures Get(Visible(d), txn.journal) == Some(BytesOf(txn, Prepared)) ==>
      Keeps(d, In(Applying, txn, outside))
    ensures Get(Visible(d), txn.journal) == Some(BytesOf(txn, Committed)) ==>
      Keeps(d, In(Clearing, txn, outside))
  {
    var v := Visible(d);
    VisibleIsAnImage(d.durable, d.pending);
    KeepsVisible(d, In(Marking, txn, outside));
    assert PhaseAt(Marking, txn, outside, v, v);
    var next := if Get(v, txn.journal) == Some(BytesOf(txn, Prepared)) then Applying else Clearing;
    forall m | m in Images(d) ensures PhaseAt(next, txn, outside, m, v) {
      assert PhaseAt(Marking, txn, outside, m, v);
      forall e | e in txn.entries ensures EntryAt(next, txn.journal, e, outside, m, v) {
        assert EntryAt(Marking, txn.journal, e, outside, m, v);
        assert EntryAt(Marking, txn.journal, e, outside, v, v);
      }
    }
  }
}
