/** The disk a reconcile transaction runs on.

    A namespace maps paths to contents. A disk is the durable namespace plus the directory
    operations that have been issued but not flushed, oldest first. What a process sees is
    the result of all of them; what a power loss may leave is the result of any subset.
 */
module Storage {
  import opened Wrappers

  datatype Role = Before | After

  /** The names the transaction tells apart. A stage name is a prefix, a random component
      and a suffix; the random component holds no separator, so the kinds never overlap. */
  datatype Name =
    | JournalFile
    | JournalStage(random: nat)
    | ImageStage(role: Role, owner: Name, random: nat)
    | Named(text: string)

  datatype Path = Path(dir: string, name: Name)

  datatype JournalState = Prepared | Committed

  /** One destination with its two staged images. The recorded digests are compared by the
      contents they stand for: SHA-256 is taken to be injective. */
  datatype Entry = Entry(destination: Path,
                         beforePath: Path, before: Content,
                         afterPath: Path, after: Content)

  datatype Content =
    | Document(bytes: seq<bv8>)
    | Journal(state: JournalState, entries: seq<Entry>)

  type Namespace = map<Path, Content>

  function Get(m: Namespace, p: Path): Option<Content>
  {
    if p in m then Some(m[p]) else None
  }

  /** A directory operation. A rename moves within one directory and is one unit: a crash
      keeps all of it or none of it. */
  datatype RawOp =
    | Put(path: Path, data: Content)
    | Drop(path: Path)
    | Move(from: Path, path: Path, data: Content)

  predicate OneDirectory(op: RawOp) {
    op.Move? ==> op.from.dir == op.path.dir
  }

  type Op = op: RawOp | OneDirectory(op) witness Drop(Path("", JournalFile))

  predicate Touches(op: Op, p: Path) {
    p == op.path || (op.Move? && p == op.from)
  }

  function Apply(m: Namespace, op: Op): Namespace
  {
    match op
    case Put(p, c) => m[p := c]
    case Drop(p) => m - {p}
    case Move(q, p, c) => (m - {q})[p := c]
  }

  function ApplyAll(m: Namespace, ops: seq<Op>): Namespace
  {
    if ops == [] then m else Apply(ApplyAll(m, ops[..|ops| - 1]), ops[|ops| - 1])
  }

  /** The operations a crash kept: `keep[k]` says whether the k-th one reached the disk. */
  function ApplyKept(m: Namespace, ops: seq<Op>, keep: seq<bool>): Namespace
    requires |keep| == |ops|
  {
    if ops == [] then m
    else
      var rest := ApplyKept(m, ops[..|ops| - 1], keep[..|ops| - 1]);
      if keep[|ops| - 1] then Apply(rest, ops[|ops| - 1]) else rest
  }

  function InDirectory(ops: seq<Op>, dir: string): (r: seq<Op>)
    ensures forall op :: op in r ==> op.path.dir == dir
  {
    if ops == [] then []
    else
      var rest := InDirectory(ops[..|ops| - 1], dir);
      var last := ops[|ops| - 1];
      if last.path.dir == dir then rest + [last] else rest
  }

  function OutsideDirectory(ops: seq<Op>, dir: string): (r: seq<Op>)
    ensures forall op :: op in r ==> op.path.dir != dir
  {
    if ops == [] then []
    else
      var rest := OutsideDirectory(ops[..|ops| - 1], dir);
      var last := ops[|ops| - 1];
      if last.path.dir == dir then rest else rest + [last]
  }

  datatype Disk = Disk(durable: Namespace, pending: seq<Op>)

  function Visible(d: Disk): Namespace
  {
    ApplyAll(d.durable, d.pending)
  }

  function Append(d: Disk, op: Op): Disk
  {
    d.(pending := d.pending + [op])
  }

  /** Flushing one directory makes every operation issued in it durable. */
  function Flush(d: Disk, dir: string): Disk
  {
    Disk(ApplyAll(d.durable, InDirectory(d.pending, dir)), OutsideDirectory(d.pending, dir))
  }

  ghost function ImagesOf(base: Namespace, ops: seq<Op>): set<Namespace>
  {
    if ops == [] then {base}
    else
      var rest := ImagesOf(base, ops[..|ops| - 1]);
      rest + set m | m in rest :: Apply(m, ops[|ops| - 1])
  }

  /** Every namespace a power loss may leave behind. */
  ghost function Images(d: Disk): set<Namespace>
  {
    ImagesOf(d.durable, d.pending)
  }

  // ---- what a crash may leave --------------------------------------------------------

  /** A crash leaves exactly what some choice of kept operations gives. */
  lemma {:induction false} ImagesAreKeptSubsets(base: Namespace, ops: seq<Op>, m: Namespace)
    ensures m in ImagesOf(base, ops)
       <==> exists keep: seq<bool> :: |keep| == |ops| && m == ApplyKept(base, ops, keep)
  {
    if ops == [] {
      var none: seq<bool> := [];
      assert m == base ==> |none| == |ops| && m == ApplyKept(base, ops, none);
      return;
    }
    var n := |ops| - 1;
    var front, last := ops[..n], ops[n];
    forall m' ensures m' in ImagesOf(base, front)
      <==> exists keep: seq<bool> :: |keep| == n && m' == ApplyKept(base, front, keep)
    {
      ImagesAreKeptSubsets(base, front, m');
    }
    if m in ImagesOf(base, ops) {
      if m in ImagesOf(base, front) {
        var keep: seq<bool> :| |keep| == n && m == ApplyKept(base, front, keep);
        assert (keep + [false])[..n] == keep;
        assert m == ApplyKept(base, ops, keep + [false]);
      } else {
        var m0 :| m0 in ImagesOf(base, front) && m == Apply(m0, last);
        var keep: seq<bool> :| |keep| == n && m0 == ApplyKept(base, front, keep);
        assert (keep + [true])[..n] == keep;
        assert m == ApplyKept(base, ops, keep + [true]);
      }
    }
    if keep: seq<bool> :| |keep| == |ops| && m == ApplyKept(base, ops, keep) {
      var m0 := ApplyKept(base, front, keep[..n]);
      assert m0 in ImagesOf(base, front);
    }
  }

  lemma {:induction false} VisibleIsAnImage(base: Namespace, ops: seq<Op>)
    ensures ApplyAll(base, ops) in ImagesOf(base, ops)
  {
    if ops != [] {
      VisibleIsAnImage(base, ops[..|ops| - 1]);
    }
  }

  lemma AppendOne(d: Disk, op: Op)
    ensures Visible(Append(d, op)) == Apply(Visible(d), op)
    ensures Images(Append(d, op)) == Images(d) + set m | m in Images(d) :: Apply(m, op)
  {
    assert (d.pending + [op])[..|d.pending|] == d.pending;
  }

  lemma Commute(m: Namespace, a: Op, b: Op)
    requires a.path.dir != b.path.dir
    ensures Apply(Apply(m, a), b) == Apply(Apply(m, b), a)
  {
  }

  lemma {:induction false} ApplyFirst(base: Namespace, ops: seq<Op>, op: Op, m: Namespace)
    requires forall o :: o in ops ==> o.path.dir != op.path.dir
    requires m in ImagesOf(Apply(base, op), ops)
    ensures exists m0 :: m0 in ImagesOf(base, ops) && m == Apply(m0, op)
  {
    if ops == [] { return; }
    var front, last := ops[..|ops| - 1], ops[|ops| - 1];
    if m in ImagesOf(Apply(base, op), front) {
      ApplyFirst(base, front, op, m);
    } else {
      var m1 :| m1 in ImagesOf(Apply(base, op), front) && m == Apply(m1, last);
      ApplyFirst(base, front, op, m1);
      var m0 :| m0 in ImagesOf(base, front) && m1 == Apply(m0, op);
      Commute(m0, op, last);
      assert Apply(m0, last) in ImagesOf(base, ops);
    }
  }

  lemma {:induction false} ApplyAllFirst(base: Namespace, ops: seq<Op>, op: Op)
    requires forall o :: o in ops ==> o.path.dir != op.path.dir
    ensures ApplyAll(Apply(base, op), ops) == Apply(ApplyAll(base, ops), op)
  {
    if ops != [] {
      ApplyAllFirst(base, ops[..|ops| - 1], op);
      Commute(ApplyAll(base, ops[..|ops| - 1]), op, ops[|ops| - 1]);
    }
  }

  /** Flushing after one more operation: it joins the durable ones, or stays last in line. */
  lemma FlushLast(d: Disk, dir: string)
    requires d.pending != []
    ensures var k := |d.pending| - 1;
      var f := Flush(d.(pending := d.pending[..k]), dir);
      var last := d.pending[k];
      && Flush(d, dir) == (if last.path.dir == dir then Disk(Apply(f.durable, last), f.pending)
                           else Append(f, last))
      && (forall o :: o in f.pending ==> o.path.dir != dir)
  {
    var k := |d.pending| - 1;
    var ops := InDirectory(d.pending[..k], dir);
    assert (ops + [d.pending[k]])[..|ops|] == ops;
  }

  /** Flushing changes nothing a process sees and rules out crash images without adding any. */
  lemma {:induction false} FlushNarrows(d: Disk, dir: string)
    ensures Visible(Flush(d, dir)) == Visible(d)
    ensures Images(Flush(d, dir)) <= Images(d)
    decreases |d.pending|
  {
    if d.pending == [] { return; }
    var n := |d.pending| - 1;
    var front, last := d.(pending := d.pending[..n]), d.pending[n];
    FlushNarrows(front, dir);
    FlushLast(d, dir);
    var f := Flush(front, dir);
    if last.path.dir == dir {
      ApplyAllFirst(f.durable, f.pending, last);
      forall m | m in Images(Flush(d, dir)) ensures m in Images(d) {
        ApplyFirst(f.durable, f.pending, last, m);
      }
    } else {
      AppendOne(f, last);
    }
  }

  /** No crash can change what a process sees at `p`. */
  ghost predicate Settled(d: Disk, p: Path)
  {
    forall m :: m in Images(d) ==> Get(m, p) == Get(Visible(d), p)
  }

  lemma {:induction false} UntouchedByAll(base: Namespace, ops: seq<Op>, p: Path, m: Namespace)
    requires forall o :: o in ops ==> !Touches(o, p)
    requires m in ImagesOf(base, ops)
    ensures Get(m, p) == Get(base, p)
  {
    if ops == [] { return; }
    var front := ops[..|ops| - 1];
    if m in ImagesOf(base, front) {
      UntouchedByAll(base, front, p, m);
    } else {
      var m0 :| m0 in ImagesOf(base, front) && m == Apply(m0, ops[|ops| - 1]);
      UntouchedByAll(base, front, p, m0);
      assert ops[|ops| - 1] in ops;
    }
  }

  /** After a flush every path of that directory is settled. */
  lemma FlushSettles(d: Disk, dir: string, p: Path)
    requires p.dir == dir || Settled(d, p)
    ensures Settled(Flush(d, dir), p)
  {
    var f := Flush(d, dir);
    FlushNarrows(d, dir);
    if p.dir == dir {
      VisibleIsAnImage(f.durable, f.pending);
      forall m | m in Images(f) ensures Get(m, p) == Get(f.durable, p) {
        UntouchedByAll(f.durable, f.pending, p, m);
      }
    }
  }

  lemma AppendKeepsSettled(d: Disk, op: Op, p: Path)
    requires Settled(d, p) && !Touches(op, p)
    ensures Settled(Append(d, op), p)
  {
    AppendOne(d, op);
  }

  // ---- what a crash may leave at one path ----------------------------------------------

  /** What an operation that touches `p` leaves there. */
  function Effect(op: Op, p: Path): Option<Content>
    requires Touches(op, p)
  {
    match op
    case Put(_, c) => Some(c)
    case Drop(_) => None
    case Move(_, q, c) => if p == q then Some(c) else None
  }

  /** `c` is durable at `p`, or some operation not yet flushed left it there. */
  predicate CanHold(base: Namespace, ops: seq<Op>, p: Path, c: Option<Content>) {
    Get(base, p) == c || exists k :: 0 <= k < |ops| && Leaves(ops[k], p, c)
  }

  predicate Leaves(op: Op, p: Path, c: Option<Content>) {
    Touches(op, p) && Effect(op, p) == c
  }

  lemma ApplyAt(m: Namespace, op: Op, p: Path)
    ensures Get(Apply(m, op), p) == if Touches(op, p) then Effect(op, p) else Get(m, p)
  {
  }

  lemma CanHoldLast(base: Namespace, ops: seq<Op>, p: Path, c: Option<Content>)
    requires ops != []
    ensures CanHold(base, ops, p, c) <==>
      CanHold(base, ops[..|ops| - 1], p, c) || Leaves(ops[|ops| - 1], p, c)
  {
    var n := |ops| - 1;
    if k :| 0 <= k < n && Leaves(ops[..n][k], p, c) {
      assert Leaves(ops[k], p, c);
    }
    if k :| 0 <= k < |ops| && Leaves(ops[k], p, c) {
      assert k < n ==> ops[..n][k] == ops[k];
    }
  }

  /** A crash may leave `c` at `p` exactly if it can be held there: what one path may end up with
      is decided by looking through the operations once. */
  lemma {:induction false} CanHoldExactly(base: Namespace, ops: seq<Op>, p: Path, c: Option<Content>)
    ensures CanHold(base, ops, p, c) <==> exists m :: m in ImagesOf(base, ops) && Get(m, p) == c
  {
    if ops == [] {
      assert base in ImagesOf(base, ops);
      return;
    }
    var front, last := ops[..|ops| - 1], ops[|ops| - 1];
    CanHoldLast(base, ops, p, c);
    CanHoldExactly(base, front, p, c);
    if m :| m in ImagesOf(base, ops) && Get(m, p) == c {
      if m !in ImagesOf(base, front) {
        var m0 :| m0 in ImagesOf(base, front) && m == Apply(m0, last);
        ApplyAt(m0, last, p);
      }
    }
    if Leaves(last, p, c) {
      VisibleIsAnImage(base, front);
      ApplyAt(ApplyAll(base, front), last, p);
    }
  }

  /** No operation moves anything between the two. */
  predicate Apart(ops: seq<Op>, p: Path, q: Path) {
    forall k :: 0 <= k < |ops| ==> !(Touches(ops[k], p) && Touches(ops[k], q))
  }

  /** What two such paths end up with is independent: a crash may leave any combination. */
  lemma {:induction false} CanHoldBoth(base: Namespace, ops: seq<Op>, p: Path, c: Option<Content>,
                                       q: Path, e: Option<Content>)
    returns (m: Namespace)
    requires CanHold(base, ops, p, c) && CanHold(base, ops, q, e) && p != q && Apart(ops, p, q)
    ensures m in ImagesOf(base, ops) && Get(m, p) == c && Get(m, q) == e
  {
    if ops == [] { return base; }
    var front, last := ops[..|ops| - 1], ops[|ops| - 1];
    CanHoldLast(base, ops, p, c);
    CanHoldLast(base, ops, q, e);
    if CanHold(base, front, p, c) && CanHold(base, front, q, e) {
      m := CanHoldBoth(base, front, p, c, q, e);
    } else if CanHold(base, front, q, e) {
      CanHoldExactly(base, front, q, e);
      var m0 :| m0 in ImagesOf(base, front) && Get(m0, q) == e;
      m := Apply(m0, last);
      ApplyAt(m0, last, p);
      ApplyAt(m0, last, q);
    } else {
      CanHoldExactly(base, front, p, c);
      var m0 :| m0 in ImagesOf(base, front) && Get(m0, p) == c;
      m := Apply(m0, last);
      ApplyAt(m0, last, p);
      ApplyAt(m0, last, q);
    }
  }

  // ---- invariants over every crash image ---------------------------------------------

  /** A claim about a crash image and the namespace visible at the same moment. */
  type Claim = (Namespace, Namespace) -> bool

  ghost predicate Keeps(d: Disk, claim: Claim)
  {
    forall m :: m in Images(d) ==> claim(m, Visible(d))
  }

  lemma KeepsVisible(d: Disk, claim: Claim)
    requires Keeps(d, claim)
    ensures claim(Visible(d), Visible(d))
  {
    VisibleIsAnImage(d.durable, d.pending);
  }

  lemma KeepsAppend(d: Disk, op: Op, claim: Claim)
    requires forall m :: m in Images(d) ==> claim(m, Apply(Visible(d), op))
    requires forall m :: m in Images(d) ==> claim(Apply(m, op), Apply(Visible(d), op))
    ensures Keeps(Append(d, op), claim)
  {
    AppendOne(d, op);
  }

  lemma KeepsFlush(d: Disk, dir: string, claim: Claim)
    requires Keeps(d, claim)
    ensures Keeps(Flush(d, dir), claim)
  {
    FlushNarrows(d, dir);
  }
}
