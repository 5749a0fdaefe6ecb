/** The durable persistence primitives, over a file system whose every step may fail or crash.

    A method that returns `Crashed` stopped there: the disk is whatever it was at that moment,
    so a postcondition that holds for `Crashed` holds at every crash point of the method.
 */
module Persistence {
  import opened Storage
  import opened Wrappers

  /** What one I/O step does: succeed, raise, find every candidate name taken (which only
      stage creation can), or never return, with or without having taken effect. */
  datatype Fault = Pass | Fail | Exhausted | CrashBefore | CrashAfter

  /** `Exists` is `FileExistsError`; `Failed` any other `OSError`. */
  datatype Status = Ok | Failed | Exists | Crashed

  /** The fault of the next step, what the steps after it meet, and how the step ends. */
  function Head(faults: seq<Fault>): Fault
  {
    if faults == [] then Pass else faults[0]
  }

  function Rest(faults: seq<Fault>): seq<Fault>
  {
    if faults == [] then [] else faults[1..]
  }

  function StatusOf(fault: Fault): Status
  {
    match fault
    case Pass => Ok
    case Fail => Failed
    case Exhausted => Failed
    case CrashBefore => Crashed
    case CrashAfter => Crashed
  }

  /** The next `n` steps succeed; what the steps after the next `n` meet. */
  predicate Fine(faults: seq<Fault>, n: nat)
    decreases n
  {
    n > 0 ==> Head(faults).Pass? && Fine(Rest(faults), n - 1)
  }

  function Later(faults: seq<Fault>, n: nat): seq<Fault>
    decreases n
  {
    if n == 0 then faults else Later(Rest(faults), n - 1)
  }

  /** A replacement that goes well until the flush after its rename, which alone fails. */
  predicate LastFlushFails(faults: seq<Fault>) {
    Fine(faults, 5) && Head(Later(faults, 5)).Fail? && Head(Later(faults, 6)).Pass?
  }

  /** A creation that goes well until the process dies between its link and the flush. */
  predicate DiesBeforeFlush(faults: seq<Fault>) {
    Fine(faults, 5) && Head(Later(faults, 5)).CrashBefore?
  }

  /** The steps to come go well but for the last, which fails or never returns; how that one ends. */
  ghost predicate Troubled(faults: seq<Fault>)
  {
    faults != [] && faults[|faults| - 1] in {Fail, CrashBefore, CrashAfter} && PassesBefore(faults, |faults| - 1)
  }

  ghost predicate PassesBefore(faults: seq<Fault>, n: nat)
    requires n <= |faults|
  {
    forall k :: 0 <= k < n ==> faults[k].Pass?
  }

  ghost function TroubleIn(faults: seq<Fault>): Status
  {
    if faults == [] then Ok else StatusOf(faults[|faults| - 1])
  }

  /** The next step is the bad one, or it goes well and the bad one is still to come. */
  lemma NextOfTroubled(faults: seq<Fault>)
    requires faults == [] || Troubled(faults)
    ensures Rest(faults) == [] || Troubled(Rest(faults))
    ensures Rest(faults) != [] ==> Head(faults).Pass? && TroubleIn(Rest(faults)) == TroubleIn(faults)
    ensures Rest(faults) == [] ==> StatusOf(Head(faults)) == TroubleIn(faults)
  {
  }

  /** One change another process makes: to a new content, or to absence. */
  datatype Edit = Edit(path: Path, content: Option<Content>)

  function EditOp(e: Edit): Op
  {
    match e.content
    case Some(c) => Put(e.path, c)
    case None => Drop(e.path)
  }

  function OpsOf(batch: seq<Edit>): (ops: seq<Op>)
    ensures |ops| == |batch|
  {
    seq(|batch|, k requires 0 <= k < |batch| => EditOp(batch[k]))
  }

  /** The last edit a batch makes of a path is what shows there afterwards. */
  lemma {:induction false} LastEditShows(d: Disk, batch: seq<Edit>, k: nat)
    requires k < |batch| && forall j :: k < j < |batch| ==> batch[j].path != batch[k].path
    ensures Get(Visible(d.(pending := d.pending + OpsOf(batch))), batch[k].path) == batch[k].content
    decreases |batch|
  {
    var n := |batch| - 1;
    var shorter := Disk(d.durable, d.pending + OpsOf(batch[..n]));
    if k < n { LastEditShows(d, batch[..n], k); }
    assert d.pending + OpsOf(batch) == shorter.pending + [EditOp(batch[n])];
    AppendOne(shorter, EditOp(batch[n]));
    ApplyAt(Visible(shorter), EditOp(batch[n]), batch[k].path);
  }

  /** One rename that took effect, with the disk it was issued on. */
  datatype Replacement = Replacement(disk: Disk, path: Path, data: Content)

  /** `claim` survives `op`, whether or not a crash keeps it. */
  ghost predicate Accepts(claim: Claim, op: Op)
  {
    forall m, v :: claim(m, v) ==>
      claim(m, Apply(v, op)) && claim(Apply(m, op), Apply(v, op))
  }

  /** `claim` does not depend on what is at `p`. */
  ghost predicate Ignores(claim: Claim, p: Path)
  {
    forall op: Op :: op.path == p && !op.Move? ==> Accepts(claim, op)
  }

  lemma AcceptedAppend(d: Disk, op: Op, claim: Claim)
    requires Keeps(d, claim) && Accepts(claim, op)
    ensures Keeps(Append(d, op), claim)
  {
    KeepsAppend(d, op, claim);
  }

  /** Going from `a` to `b` changed nothing outside `touched`, visibly or in any crash. */
  ghost predicate Spares(a: Disk, b: Disk, touched: set<Path>)
  {
    forall p :: p !in touched ==>
      Get(Visible(b), p) == Get(Visible(a), p) && (Settled(a, p) ==> Settled(b, p))
  }

  lemma SparesAppend(d: Disk, op: Op, touched: set<Path>)
    requires forall p :: Touches(op, p) ==> p in touched
    ensures Spares(d, Append(d, op), touched)
  {
    AppendOne(d, op);
    forall p | p !in touched && Settled(d, p) ensures Settled(Append(d, op), p) {
      AppendKeepsSettled(d, op, p);
    }
  }

  lemma SparesFlush(d: Disk, dir: string)
    ensures Spares(d, Flush(d, dir), {})
  {
    FlushNarrows(d, dir);
    forall p | Settled(d, p) ensures Settled(Flush(d, dir), p) {
      FlushSettles(d, dir, p);
    }
  }

  /** One operation not issued, issued, or issued and flushed: what it makes visible and spares. */
  lemma IssueAndFlush(a: Disk, b: Disk, op: Op, touched: set<Path>)
    requires forall p :: Touches(op, p) ==> p in touched
    requires b in {a, Append(a, op), Flush(Append(a, op), op.path.dir)}
    ensures Spares(a, b, touched)
    ensures b in {Append(a, op), Flush(Append(a, op), op.path.dir)} ==> Visible(b) == Apply(Visible(a), op)
  {
    var issued := Append(a, op);
    AppendOne(a, op);
    SparesAppend(a, op, touched);
    FlushNarrows(issued, op.path.dir);
    SparesFlush(issued, op.path.dir);
  }

  lemma MovedUnflushed(a: Disk, b: Disk, staged: Path, p: Path, data: Content)
    requires staged.dir == p.dir && staged != p
    ensures b == Append(a, Move(staged, p, data)) ==>
      Visible(a) in Images(b) && staged !in Visible(b) && Get(Visible(b), p) == Some(data)
  {
    ReplacedOrNot(a, Move(staged, p, data));
  }

  lemma MovedOrSpared(a: Disk, b: Disk, c: Disk, staged: Path, p: Path, data: Content)
    requires Spares(a, b, {staged, p}) && Spares(b, c, {staged}) && staged != p
    requires b == a || Get(Visible(b), p) == Some(data)
    ensures Spares(a, c, {staged, p})
    ensures Get(Visible(c), p) == Some(data) || Spares(a, c, {staged})
  {
  }

  /** An operation issued and not flushed: a crash may still leave what was visible before it. */
  lemma ReplacedOrNot(d: Disk, op: Op)
    ensures Visible(d) in Images(Append(d, op)) && Visible(Append(d, op)) == Apply(Visible(d), op)
  {
    AppendOne(d, op);
    VisibleIsAnImage(d.durable, d.pending);
  }

  /** The directory was flushed and nothing is pending in it. */
  ghost predicate DirectorySettled(d: Disk, dir: string)
  {
    forall p: Path :: p.dir == dir ==> Settled(d, p)
  }

  predicate IsStage(name: Name) {
    name.JournalStage? || name.ImageStage?
  }

  function RandomOf(p: Path): nat
  {
    match p.name
    case JournalStage(r) => r
    case ImageStage(_, _, r) => r
    case _ => 0
  }

  /** `p` is a name `mkstemp` may draw in `dir` under the prefix and suffix of `kind`. */
  predicate Drawable(dir: string, kind: Name, p: Path) {
    p.dir == dir &&
    match p.name
    case JournalStage(_) => kind.JournalStage?
    case ImageStage(role, owner, _) => kind.ImageStage? && kind.role == role && kind.owner == owner
    case _ => false
  }

  function Draw(dir: string, kind: Name, random: nat): (p: Path)
    requires IsStage(kind)
    ensures Drawable(dir, kind, p) && RandomOf(p) == random
  {
    Path(dir, match kind
              case JournalStage(_) => JournalStage(random)
              case ImageStage(role, owner, _) => ImageStage(role, owner, random))
  }

  lemma RandomsAreBounded(ps: set<Path>) returns (bound: nat)
    ensures forall p :: p in ps ==> RandomOf(p) < bound
  {
    bound := 0;
    var rest := ps;
    while rest != {}
      invariant rest <= ps
      invariant forall p :: p in ps - rest ==> RandomOf(p) < bound
      decreases rest
    {
      var p :| p in rest;
      rest := rest - {p};
      bound := if RandomOf(p) < bound then bound else RandomOf(p) + 1;
    }
  }

  class FileSystem {
    var disk: Disk
    var faults: seq<Fault>              // one per I/O step; none left means no more faults
    var edits: seq<seq<Edit>>           // one batch per point where another process may run
    const torn: Content                 // what a file not yet synchronized may hold
    ghost const outside: set<Path>      // every path another process may edit
    ghost var replaced: seq<Replacement>

    constructor (disk: Disk, faults: seq<Fault>, edits: seq<seq<Edit>>, torn: Content,
                 ghost outside: set<Path>)
      requires forall b, e :: b in edits && e in b ==> e.path in outside
      ensures Valid() && this.disk == disk && this.outside == outside && replaced == []
      ensures this.faults == faults && this.edits == edits
    {
      this.disk, this.faults, this.edits, this.torn := disk, faults, edits, torn;
      this.outside, replaced := outside, [];
    }

    ghost predicate Valid()
      reads this
    {
      forall b, e :: b in edits && e in b ==> e.path in outside
    }

    /** From here on no step fails and no other process edits anything. */
    ghost predicate Calm()
      reads this
    {
      faults == [] && edits == []
    }

    /** At most one step to come goes wrong: how it ends, or that none does. */
    ghost predicate Steady()
      reads this
    {
      faults == [] || Troubled(faults)
    }

    /** And nobody else is about. */
    ghost predicate Orderly()
      reads this
    {
      edits == [] && Steady()
    }

    ghost function Trouble(): Status
      reads this
    {
      TroubleIn(faults)
    }

    /** After an operation on such a file system. Either the bad step is still to come, or it has been
        met: then the process died exactly if that step never returned, and no step goes wrong again. */
    ghost predicate Since(trouble: Status, crashed: bool)
      reads this
    {
      && Steady() && (faults != [] ==> Trouble() == trouble && !crashed)
      && (faults == [] ==> (crashed <==> trouble.Crashed?)) && (trouble.Ok? ==> faults == [])
    }

    /** And the operation goes well unless it met the bad step. */
    ghost predicate Survived(trouble: Status, s: Status)
      reads this
    {
      Since(trouble, s.Crashed?) && (trouble.Ok? || faults != [] ==> s.Ok?)
    }

    /** And it fails if it did. */
    ghost predicate Met(trouble: Status, s: Status)
      reads this
    {
      Survived(trouble, s) && (s.Ok? ==> trouble.Ok? || faults != [])
    }

    /** What other processes may still edit. */
    ghost function Editable(): set<Path>
      reads this
    {
      if edits == [] then {} else outside
    }

    method NextFault() returns (f: Fault)
      requires Valid()
      modifies this`faults
      ensures f == Head(old(faults)) && faults == Rest(old(faults))
      ensures old(Steady()) ==> Met(old(Trouble()), StatusOf(f))
    {
      if faults == [] || Troubled(faults) { NextOfTroubled(faults); }
      f, faults := Head(faults), Rest(faults);
    }

    /** Another process runs. It edits only paths in `outside`, so a claim that ignores
        them survives. */
    method Environment(ghost claim: Claim)
      requires Valid() && Keeps(disk, claim)
      requires forall p :: p in outside ==> Ignores(claim, p)
      modifies this`disk, this`edits
      ensures Valid() && Keeps(disk, claim) && Spares(old(disk), disk, old(Editable()))
      ensures Editable() <= old(Editable()) <= outside
      ensures old(edits) == [] ==> disk == old(disk) && edits == []
      ensures old(edits) != [] ==>
        edits == old(edits)[1..] && disk == old(disk).(pending := old(disk).pending + OpsOf(old(edits)[0]))
      ensures old(Calm()) ==> Calm()
    {
      if edits == [] { return; }
      var batch := edits[0];
      assert forall e :: e in batch ==> e.path in outside by { assert batch in edits; }
      edits := edits[1..];
      for k := 0 to |batch|
        invariant Valid() && Keeps(disk, claim) && Spares(old(disk), disk, outside)
        invariant edits == old(edits)[1..]
        invariant disk == old(disk).(pending := old(disk).pending + OpsOf(batch[..k]))
      {
        assert batch[..k + 1][..k] == batch[..k];
        var op := EditOp(batch[k]);
        assert op.path in outside by { assert batch[k] in batch; }
        assert OpsOf(batch[..k + 1]) == OpsOf(batch[..k]) + [op];
        assert Accepts(claim, op) by { assert Ignores(claim, op.path); }
        AcceptedAppend(disk, op, claim);
        SparesAppend(disk, op, outside);
        disk := Append(disk, op);
      }
      assert batch[..|batch|] == batch;
    }

    /** The power fails: the operations `keep` picks survive, every other pending one is lost. */
    method PowerLoss(keep: nat -> bool)
      requires Valid()
      modifies this`disk
      ensures disk.pending == [] && disk.durable in Images(old(disk)) && Visible(disk) == disk.durable
    {
      var kept := seq(|disk.pending|, i requires 0 <= i => keep(i));
      ImagesAreKeptSubsets(disk.durable, disk.pending, ApplyKept(disk.durable, disk.pending, kept));
      disk := Disk(ApplyKept(disk.durable, disk.pending, kept), []);
    }

    /** One directory operation. */
    method Step(op: Op, ghost claim: Claim) returns (s: Status)
      requires Valid() && Keeps(disk, claim) && Keeps(Append(disk, op), claim)
      modifies this`disk, this`faults, this`replaced
      ensures s.Ok? ==> disk == Append(old(disk), op)
      ensures s.Failed? ==> disk == old(disk)
      ensures s.Crashed? ==> disk == old(disk) || disk == Append(old(disk), op)
      ensures s == StatusOf(Head(old(faults))) && faults == Rest(old(faults)) && Keeps(disk, claim)
      ensures old(Steady()) ==> Met(old(Trouble()), s)
      ensures replaced == if disk != old(disk) && op.Move?
                          then old(replaced) + [Replacement(old(disk), op.path, op.data)]
                          else old(replaced)
    {
      var fault := NextFault();
      if fault.Fail? || fault.Exhausted? { return Failed; }
      if fault.CrashBefore? { return Crashed; }
      assert Append(disk, op) != disk by { assert |Append(disk, op).pending| == |disk.pending| + 1; }
      if op.Move? {
        replaced := replaced + [Replacement(disk, op.path, op.data)];
      }
      disk := Append(disk, op);
      s := if fault.CrashAfter? then Crashed else Ok;
    }

    /** Read a file, or find it absent. */
    method Read(p: Path) returns (s: Status, content: Option<Content>)
      requires Valid()
      modifies this`faults
      ensures s.Ok? ==> content == Get(Visible(disk), p)
      ensures s == StatusOf(Head(old(faults))) && faults == Rest(old(faults))
      ensures old(Steady()) ==> Met(old(Trouble()), s)
    {
      var fault := NextFault();
      content := Get(Visible(disk), p);
      s := StatusOf(fault);
    }

    method SyncDirectory(dir: string, ghost claim: Claim) returns (s: Status)
      requires Valid() && Keeps(disk, claim)
      modifies this`disk, this`faults
      ensures s.Ok? ==> disk == Flush(old(disk), dir) && DirectorySettled(disk, dir)
      ensures s.Failed? ==> disk == old(disk)
      ensures s.Crashed? ==> disk == old(disk) || disk == Flush(old(disk), dir)
      ensures Head(old(faults)).CrashBefore? ==> disk == old(disk)
      ensures Keeps(disk, claim) && Spares(old(disk), disk, {})
      ensures s == StatusOf(Head(old(faults))) && faults == Rest(old(faults))
      ensures old(Steady()) ==> Met(old(Trouble()), s)
    {
      var fault := NextFault();
      if fault.Fail? || fault.Exhausted? { return Failed; }
      if fault.CrashBefore? { return Crashed; }
      KeepsFlush(disk, dir, claim);
      SparesFlush(disk, dir);
      forall p: Path | p.dir == dir ensures Settled(Flush(disk, dir), p) {
        FlushSettles(disk, dir, p);
      }
      disk := Flush(disk, dir);
      s := if fault.CrashAfter? then Crashed else Ok;
    }

    /** One directory operation, and then the flush of its directory. */
    method StepAndSync(op: Op, ghost claim: Claim, ghost touched: set<Path>) returns (s: Status)
      requires Valid() && Keeps(disk, claim) && Keeps(Append(disk, op), claim)
      requires forall p :: Touches(op, p) ==> p in touched
      modifies this`disk, this`faults, this`replaced
      ensures Keeps(disk, claim) && Spares(old(disk), disk, touched) && !s.Exists?
      ensures disk == old(disk) || Visible(disk) == Apply(Visible(old(disk)), op)
      ensures s.Ok? ==> Visible(disk) == Apply(Visible(old(disk)), op) && DirectorySettled(disk, op.path.dir)
      ensures replaced == old(replaced)
           || (op.Move? && replaced == old(replaced) + [Replacement(old(disk), op.path, op.data)])
      // the flush alone fails, or the process dies before it
      ensures Head(old(faults)).Pass? && Head(Rest(old(faults))) in {Fail, CrashBefore} ==>
        && s == StatusOf(Head(Rest(old(faults)))) && faults == Rest(Rest(old(faults)))
        && disk == Append(old(disk), op)
      ensures Fine(old(faults), 2) ==> s.Ok? && faults == Later(old(faults), 2)
      ensures old(Steady()) ==> Met(old(Trouble()), s)
    {
      ghost var start := disk;
      s := Step(op, claim);
      if s.Ok? {
        s := SyncDirectory(op.path.dir, claim);
      }
      IssueAndFlush(start, disk, op, touched);
    }

    /** Remove an artifact and flush its directory; an absent one is left alone, unflushed. */
    method DurableUnlink(p: Path, ghost claim: Claim) returns (s: Status)
      requires Valid() && Keeps(disk, claim)
      requires p in Visible(disk) ==> Keeps(Append(disk, Drop(p)), claim)
      modifies this`disk, this`faults, this`replaced
      ensures Keeps(disk, claim) && Spares(old(disk), disk, {p}) && replaced == old(replaced)
      ensures p !in Visible(disk) || Get(Visible(disk), p) == Get(Visible(old(disk)), p)
      ensures s.Ok? ==> p !in Visible(disk)
      ensures s.Ok? && p in Visible(old(disk)) ==> DirectorySettled(disk, p.dir)
      ensures p !in Visible(old(disk)) ==> disk == old(disk)
      ensures p !in Visible(old(disk)) ==> s == StatusOf(Head(old(faults))) && faults == Rest(old(faults))
      ensures p in Visible(old(disk)) && Head(old(faults)).Pass? && Head(Rest(old(faults))).Fail? ==>
        s.Failed? && faults == Rest(Rest(old(faults))) && disk == Append(old(disk), Drop(p))
      ensures !s.Exists?
      ensures old(Steady()) ==> Met(old(Trouble()), s)
    {
      if p !in Visible(disk) {
        var fault := NextFault();
        return StatusOf(fault);
      }
      s := StepAndSync(Drop(p), claim, {p});
    }

    /** Publish a same-directory staged file over its destination and flush the directory.
        A failure may leave the rename done and unflushed. */
    method ReplaceStaged(staged: Path, destination: Path, ghost claim: Claim) returns (s: Status)
      requires Valid() && Keeps(disk, claim)
      requires staged.dir == destination.dir && staged in Visible(disk) ==>
                 Keeps(Append(disk, Move(staged, destination, Visible(disk)[staged])), claim)
      modifies this`disk, this`faults, this`replaced
      ensures Keeps(disk, claim) && Spares(old(disk), disk, {staged, destination})
      ensures !s.Exists?
      ensures s.Ok? ==>
        && staged.dir == destination.dir && staged in Visible(old(disk))
        && Visible(disk) == Apply(Visible(old(disk)),
                                  Move(staged, destination, Visible(old(disk))[staged]))
        && DirectorySettled(disk, destination.dir)
      ensures disk == old(disk) || (staged in Visible(old(disk))
                && Get(Visible(disk), destination) == Some(Visible(old(disk))[staged]))
      ensures replaced == old(replaced)
           || (staged in Visible(old(disk)) && replaced == old(replaced) +
                [Replacement(old(disk), destination, Visible(old(disk))[staged])])
      ensures (&& Head(old(faults)).Pass? && Head(Rest(old(faults))).Fail?
               && staged.dir == destination.dir && staged in Visible(old(disk)))
        ==> && s.Failed? && faults == Rest(Rest(old(faults)))
            && disk == Append(old(disk), Move(staged, destination, Visible(old(disk))[staged]))
      ensures old(Steady()) && staged.dir == destination.dir && staged in Visible(old(disk)) ==>
        Met(old(Trouble()), s)
    {
      if staged.dir != destination.dir || staged !in Visible(disk) {
        var _ := NextFault();
        return Failed;
      }
      var op := Move(staged, destination, Visible(disk)[staged]);
      s := StepAndSync(op, claim, {staged, destination});
    }

    /** Remove this helper's stage after a failure; a failing removal is only noted. */
    method UnlinkPreservingError(p: Path, primary: Status, ghost claim: Claim)
      returns (s: Status, cleaned: bool)
      requires Valid() && Keeps(disk, claim) && primary in {Failed, Exists}
      requires Ignores(claim, p)
      modifies this`disk, this`faults, this`replaced
      ensures Keeps(disk, claim) && Spares(old(disk), disk, {p}) && replaced == old(replaced)
      ensures s in {primary, Crashed}
      ensures cleaned ==> s == primary && p !in Visible(disk)
      ensures cleaned && p in Visible(old(disk)) ==> DirectorySettled(disk, p.dir)
      ensures p !in Visible(old(disk)) ==>
        disk == old(disk) && faults == Rest(old(faults)) && (Head(old(faults)).Pass? ==> cleaned)
      ensures old(Steady()) ==> Met(old(Trouble()), if s.Crashed? then Crashed else if cleaned then Ok else Failed)
    {
      AcceptedAppend(disk, Drop(p), claim);
      var cleanup := DurableUnlink(p, claim);
      s, cleaned := if cleanup.Crashed? then Crashed else primary, cleanup.Ok?;
    }

    /** Write and synchronize a new file under a fresh name. `kind` is the caller's prefix. A
        failure leaves nothing behind, unless its note names the stage. */
    method StageBytes(dir: string, kind: Name, data: Content, ghost claim: Claim)
      returns (s: Status, staged: Path, noted: bool)
      requires Valid() && Keeps(disk, claim) && IsStage(kind)
      requires forall p :: Drawable(dir, kind, p) && p !in Visible(disk) ==> Ignores(claim, p)
      modifies this`disk, this`faults, this`replaced
      ensures staged !in Visible(old(disk)) && Drawable(dir, kind, staged)
      ensures Keeps(disk, claim) && Spares(old(disk), disk, {staged}) && replaced == old(replaced)
      ensures s.Ok? ==> Get(Visible(disk), staged) == Some(data) && DirectorySettled(disk, dir)
      ensures s.Exists? ==> disk == old(disk)
      ensures !s.Ok? && !s.Crashed? && !noted ==> Spares(old(disk), disk, {}) && staged !in Visible(disk)
      ensures Fine(old(faults), 4) ==> s.Ok? && faults == Later(old(faults), 4)
      ensures old(Steady()) ==> Met(old(Trouble()), s) && !noted
      ensures s.Ok? ==> !noted
    {
      noted := false;
      ghost var bound := RandomsAreBounded(Visible(disk).Keys);
      assert Draw(dir, kind, bound) !in Visible(disk);
      var r: nat :| Draw(dir, kind, r) !in Visible(disk);
      staged := Draw(dir, kind, r);
      var fault := NextFault();                    // inspecting the destination, drawing a name
      if fault.Fail? { return Failed, staged, noted; }
      if fault.Exhausted? { return Exists, staged, noted; }
      if fault.CrashBefore? || fault.CrashAfter? { return Crashed, staged, noted; }
      s, noted := FillStage(staged, data, claim);
    }

    /** Create the drawn stage, write it, synchronize it and flush its directory. */
    method FillStage(staged: Path, data: Content, ghost claim: Claim)
      returns (s: Status, noted: bool)
      requires Valid() && Keeps(disk, claim) && Ignores(claim, staged)
      modifies this`disk, this`faults, this`replaced
      ensures Keeps(disk, claim) && Spares(old(disk), disk, {staged}) && replaced == old(replaced)
      ensures s.Ok? ==> Get(Visible(disk), staged) == Some(data) && DirectorySettled(disk, staged.dir)
      ensures !s.Exists?
      ensures s.Failed? && !noted && staged !in Visible(old(disk)) ==>
        Spares(old(disk), disk, {}) && staged !in Visible(disk)
      ensures Fine(old(faults), 3) ==> s.Ok? && faults == Later(old(faults), 3)
      ensures old(Steady()) ==> Met(old(Trouble()), s) && !noted
      ensures s.Ok? ==> !noted
    {
      noted := false;
      AcceptedAppend(disk, Put(staged, torn), claim);
      AppendOne(disk, Put(staged, torn));
      SparesAppend(disk, Put(staged, torn), {staged});
      s := Step(Put(staged, torn), claim);
      if !s.Ok? { return; }
      s := WriteStage(staged, data, claim);
      if s.Failed? {
        var cleaned;
        s, cleaned := UnlinkPreservingError(staged, Failed, claim);
        noted := !cleaned;
      }
    }

    /** Give a created stage its bytes and flush its directory. */
    method WriteStage(staged: Path, data: Content, ghost claim: Claim) returns (s: Status)
      requires Valid() && Keeps(disk, claim) && Ignores(claim, staged)
      modifies this`disk, this`faults, this`replaced
      ensures Keeps(disk, claim) && Spares(old(disk), disk, {staged}) && replaced == old(replaced)
      ensures s.Ok? ==> Get(Visible(disk), staged) == Some(data) && DirectorySettled(disk, staged.dir)
      ensures !s.Exists? && (staged in Visible(old(disk)) ==> staged in Visible(disk))
      ensures Fine(old(faults), 2) ==> s.Ok? && faults == Later(old(faults), 2)
      ensures old(Steady()) ==> Met(old(Trouble()), s)
    {
      AcceptedAppend(disk, Put(staged, data), claim);
      s := StepAndSync(Put(staged, data), claim, {staged});
    }

    /** Durably replace `p` with exact bytes, through a fresh journal stage. */
    method AtomicReplaceBytes(p: Path, data: Content, ghost claim: Claim)
      returns (s: Status, ghost stage: Path)
      requires Valid() && Keeps(disk, claim)
      requires forall h :: Drawable(p.dir, JournalStage(0), h) && h !in Visible(disk) ==>
        Ignores(claim, h) && Accepts(claim, Move(h, p, data)) && h != p
      modifies this`disk, this`faults, this`replaced
      ensures Keeps(disk, claim)
      ensures Drawable(p.dir, JournalStage(0), stage) && stage !in Visible(old(disk))
      ensures Spares(old(disk), disk, {stage, p})
      ensures Get(Visible(disk), p) == Some(data) || Spares(old(disk), disk, {stage})
      ensures s.Ok? ==> Get(Visible(disk), p) == Some(data) && DirectorySettled(disk, p.dir)
      ensures old(replaced) <= replaced
      ensures forall k :: |old(replaced)| <= k < |replaced| ==> replaced[k].path == p
      // a failing last flush leaves the new content visible and the old one possible
      ensures LastFlushFails(old(faults)) ==>
        && s.Failed? && faults == Later(old(faults), 7) && Get(Visible(disk), p) == Some(data)
        && exists m :: m in Images(disk) && Get(m, p) == Get(Visible(old(disk)), p)
      // one bad step leaves no stage behind
      ensures old(Steady()) ==> Met(old(Trouble()), s) && (!s.Crashed? ==> stage !in Visible(disk))
      ensures s.Ok? ==> stage !in Visible(disk)
    {
      var staged, noted;
      s, staged, noted := StageBytes(p.dir, JournalStage(0), data, claim);
      stage := staged;
      if !s.Ok? { return; }
      s := MoveStage(staged, p, data, claim);
    }

    /** Rename a stage over the path it was written for, or remove it again. */
    method MoveStage(staged: Path, p: Path, data: Content, ghost claim: Claim) returns (s: Status)
      requires Valid() && Keeps(disk, claim) && Get(Visible(disk), staged) == Some(data)
      requires staged.dir == p.dir && staged != p && Ignores(claim, staged) && Accepts(claim, Move(staged, p, data))
      modifies this`disk, this`faults, this`replaced
      ensures Keeps(disk, claim) && Spares(old(disk), disk, {staged, p}) && !s.Exists?
      ensures Get(Visible(disk), p) == Some(data) || Spares(old(disk), disk, {staged})
      ensures s.Ok? ==> Get(Visible(disk), p) == Some(data) && DirectorySettled(disk, p.dir)
      ensures replaced == old(replaced) || replaced == old(replaced) + [Replacement(old(disk), p, data)]
      ensures (&& Head(old(faults)).Pass? && Head(Rest(old(faults))).Fail?
               && Head(Rest(Rest(old(faults)))).Pass?)
        ==> && s.Failed? && faults == Rest(Rest(Rest(old(faults)))) && Get(Visible(disk), p) == Some(data)
            && Visible(old(disk)) in Images(disk)
      ensures old(Steady()) ==> Met(old(Trouble()), s) && (!s.Crashed? ==> staged !in Visible(disk))
      ensures s.Ok? ==> staged !in Visible(disk)
    {
      ghost var start := disk;
      AcceptedAppend(disk, Move(staged, p, data), claim);
      s := ReplaceStaged(staged, p, claim);
      ghost var mid := disk;
      MovedUnflushed(start, mid, staged, p, data);
      if s.Failed? {
        var cleaned;
        s, cleaned := UnlinkPreservingError(staged, Failed, claim);
      }
      MovedOrSpared(start, mid, disk, staged, p, data);
    }

    /** Durably create `p` with exact bytes, through a fresh journal stage and a hard link. */
    method AtomicCreateBytes(p: Path, data: Content, ghost claim: Claim)
      returns (s: Status, ghost stage: Path)
      requires Valid() && Keeps(disk, claim)
      requires forall h :: Drawable(p.dir, JournalStage(0), h) && h !in Visible(disk) ==>
        Ignores(claim, h) && h != p
      requires p !in Visible(disk) ==> Accepts(claim, Put(p, data))
      modifies this`disk, this`faults, this`replaced
      ensures Keeps(disk, claim) && replaced == old(replaced)
      ensures Drawable(p.dir, JournalStage(0), stage) && stage !in Visible(old(disk))
      ensures Spares(old(disk), disk, {stage, p})
      ensures s.Ok? ==> p !in Visible(old(disk))
      ensures s.Ok? ==> Get(Visible(disk), p) == Some(data) && DirectorySettled(disk, p.dir)
      ensures p in Visible(old(disk)) ==> Get(Visible(disk), p) == Get(Visible(old(disk)), p)
      ensures p !in Visible(disk) || Get(Visible(disk), p) == Get(Visible(old(disk)), p)
           || Get(Visible(disk), p) == Some(data)
      // a process that dies before the flush leaves a file that is there and can still be lost
      ensures DiesBeforeFlush(old(faults)) && p !in Visible(old(disk)) ==>
        && s.Crashed? && Get(Visible(disk), p) == Some(data)
        && exists m :: m in Images(disk) && p !in m
      ensures old(Steady()) && p !in Visible(old(disk)) ==> Met(old(Trouble()), s)
      // one bad step leaves no stage behind unless the file is there
      ensures old(Steady()) && s.Failed? && p !in Visible(disk) ==> stage !in Visible(disk)
      // a file that is already there refuses, and no stage is left
      ensures old(Calm()) && p in Visible(old(disk)) ==> s.Exists? && Calm() && stage !in Visible(disk)
      ensures s.Ok? ==> stage !in Visible(disk)
    {
      var staged, noted;
      s, staged, noted := StageBytes(p.dir, JournalStage(0), data, claim);
      stage := staged;
      if !s.Ok? { return; }
      if p in Visible(disk) {
        var cleaned;
        s, cleaned := UnlinkPreservingError(staged, Exists, claim);
        return;
      }
      ReplacedOrNot(disk, Put(p, data));
      s := PublishStage(staged, p, data, claim);
    }

    /** Link a stage to the path it was written for, and remove it. */
    method PublishStage(staged: Path, p: Path, data: Content, ghost claim: Claim) returns (s: Status)
      requires Valid() && Keeps(disk, claim) && Get(Visible(disk), staged) == Some(data) && staged != p
      requires p !in Visible(disk) && Ignores(claim, staged) && Accepts(claim, Put(p, data))
      modifies this`disk, this`faults, this`replaced
      ensures Keeps(disk, claim) && replaced == old(replaced) && Spares(old(disk), disk, {staged, p})
      ensures s.Ok? ==> Get(Visible(disk), p) == Some(data) && DirectorySettled(disk, p.dir)
      ensures s.Ok? ==> staged !in Visible(disk)
      ensures p !in Visible(disk) || Get(Visible(disk), p) == Some(data)
      ensures !s.Exists?
      ensures Head(old(faults)).Pass? && Head(Rest(old(faults))).CrashBefore? ==>
        s.Crashed? && disk == Append(old(disk), Put(p, data))
      ensures old(Steady()) ==> Met(old(Trouble()), s)
      ensures old(Steady()) && s.Failed? && p !in Visible(disk) ==> staged !in Visible(disk)
    {
      s := LinkStage(p, data, claim);
      if s.Failed? {
        var cleaned;
        s, cleaned := UnlinkPreservingError(staged, Failed, claim);
        return;
      }
      if s.Ok? {
        AcceptedAppend(disk, Drop(staged), claim);
        s := DurableUnlink(staged, claim);
      }
    }

    /** The hard link that publishes a stage under a name nothing holds, flushed. */
    method LinkStage(p: Path, data: Content, ghost claim: Claim) returns (s: Status)
      requires Valid() && Keeps(disk, claim) && p !in Visible(disk) && Accepts(claim, Put(p, data))
      modifies this`disk, this`faults, this`replaced
      ensures Keeps(disk, claim) && replaced == old(replaced) && Spares(old(disk), disk, {p})
      ensures s.Ok? ==> Get(Visible(disk), p) == Some(data) && DirectorySettled(disk, p.dir)
      ensures p !in Visible(disk) || Get(Visible(disk), p) == Some(data)
      ensures !s.Exists?
      ensures Head(old(faults)).Pass? && Head(Rest(old(faults))).CrashBefore? ==>
        s.Crashed? && disk == Append(old(disk), Put(p, data))
      ensures old(Steady()) ==> Met(old(Trouble()), s)
    {
      AcceptedAppend(disk, Put(p, data), claim);
      s := StepAndSync(Put(p, data), claim, {p});
    }
  }
}
