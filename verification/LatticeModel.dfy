/** Refs, documents and the lattice derived from them. */
module LatticeModel {
  import opened Dictionaries
  import opened MergedCollisions
  import opened Sections
  import opened Wrappers

  // ---- refs --------------------------------------------------------------------------

  /** A whole file, or an anchored section of one. */
  datatype TargetId = TargetId(fileId: string, anchor: Option<string>)

  const SEPARATOR := '#'

  function AsRef(t: TargetId): string
  {
    if t.anchor.None? then t.fileId else t.fileId + [SEPARATOR] + t.anchor.value
  }

  /** The position of the last separator, or -1. */
  function LastSeparator(ref: string): (p: int)
    ensures -1 <= p < |ref|
    ensures p >= 0 ==> ref[p] == SEPARATOR
    ensures forall i :: p < i < |ref| ==> ref[i] != SEPARATOR
  {
    if ref == [] then -1
    else if ref[|ref| - 1] == SEPARATOR then |ref| - 1
    else LastSeparator(ref[..|ref| - 1])
  }

  /** A ref splits on its last separator. */
  function ParseRef(ref: string): TargetId
  {
    var p := LastSeparator(ref);
    if p < 0 then TargetId(ref, None) else TargetId(ref[..p], Some(ref[p + 1..]))
  }

  /** Printing undoes parsing, so two refs that name the same target are the same string. */
  lemma {:induction false} AsRefOfParse(ref: string)
    ensures AsRef(ParseRef(ref)) == ref
  {
    var p := LastSeparator(ref);
    if p >= 0 {
      assert ref == ref[..p] + [ref[p]] + ref[p + 1..];
    }
  }

  lemma {:induction false} ParseRefInjective(a: string, b: string)
    requires ParseRef(a) == ParseRef(b)
    ensures a == b
  {
    AsRefOfParse(a);
    AsRefOfParse(b);
  }

  /** Parsing undoes printing exactly where the last component holds no separator, as every
      node id and anchor is required not to. */
  lemma {:induction false} ParseOfAsRef(t: TargetId)
    ensures ParseRef(AsRef(t)) == t
        <==> SEPARATOR !in (if t.anchor.None? then t.fileId else t.anchor.value)
  {
    var ref, p := AsRef(t), LastSeparator(AsRef(t));
    if t.anchor.Some? {
      var n := |t.fileId|;
      assert ref[n] == SEPARATOR && ref[n + 1..] == t.anchor.value && ref[..n] == t.fileId;
      if SEPARATOR !in t.anchor.value {
        assert forall i :: n < i < |ref| ==> ref[i] == t.anchor.value[i - n - 1];
        assert p == n;
      } else {
        assert forall i :: 0 <= i < |t.anchor.value| ==> ref[n + 1 + i] == t.anchor.value[i];
        assert p > n && |ref[..p]| != n;
      }
    }
  }

  // ---- documents and the lattice ------------------------------------------------------

  /** One derives_from entry: a ref as written, and the hash it was locked at. */
  datatype RawEdge = RawEdge(ref: string, seen: Option<string>)

  datatype SectionRecord = SectionRecord(anchor: string, span: Span, collision: Option<seq<CollisionMember>>,
                                         context: seq<string>)

  datatype Doc = Doc(path: string, id: string, body: string, totalLines: nat, sections: seq<SectionRecord>,
                     derivesFrom: seq<RawEdge>)
  {
    function Own(): TargetId { TargetId(id, None) }

    function At(k: nat): TargetId
      requires k < |sections|
    {
      TargetId(id, Some(sections[k].anchor))
    }

    function Spans(): (r: seq<Span>)
      ensures |r| == |sections|
    {
      seq(|sections|, k requires 0 <= k < |sections| => sections[k].span)
    }
  }

  /** The document's sections are its headings, in order, each with its span. */
  ghost predicate Sectioned(d: Doc, headings: seq<Heading>)
  {
    SpansOf(headings, d.totalLines, d.Spans())
  }

  /** One section to a heading: its anchor, its span, its collision unless the anchor is a marker's,
      and its chain. */
  method DeriveSections(headings: seq<Heading>, anchors: seq<string>, marked: seq<bool>, chains: seq<seq<string>>,
                        members: map<int, seq<CollisionMember>>, total: nat)
    returns (sections: seq<SectionRecord>)
    requires |anchors| == |marked| == |chains| == |headings|
    ensures |sections| == |headings|
    ensures forall k :: 0 <= k < |headings| ==>
      && sections[k].anchor == anchors[k] && sections[k].context == chains[k]
      && sections[k].collision == if marked[k] || headings[k].line !in members then None
                                  else Some(members[headings[k].line])
    ensures LinesRise(headings) && (forall k :: 0 <= k < |headings| ==> headings[k].line <= total) ==>
      forall path, id, body, raws :: Sectioned(Doc(path, id, body, total, sections, raws), headings)
  {
    var spans := SectionSpans(headings, total);
    sections := seq(|headings|, k requires 0 <= k < |headings| == |spans| == |anchors| == |marked| == |chains| =>
      SectionRecord(anchors[k], spans[k],
                    if marked[k] || headings[k].line !in members then None else Some(members[headings[k].line]),
                    chains[k]));
    forall path, id, body, raws
      ensures Doc(path, id, body, total, sections, raws).Spans() == spans
    {
    }
  }

  datatype Location = Location(path: string, isFile: bool, span: Span)

  /** `targetId` is absent when the ref is broken. */
  datatype Edge = Edge(targetRef: string, targetId: Option<TargetId>, seen: Option<string>)

  datatype Node = Node(id: string, path: string, body: string, derivesFrom: seq<Edge>)

  datatype Lattice = Lattice(
    nodesById: map<string, Node>,
    index: map<TargetId, Location>,
    dependents: map<TargetId, set<string>>,
    ancestors: map<TargetId, seq<TargetId>>,
    fileIdByPath: map<string, string>,
    anchorsByPath: map<string, set<TargetId>>,
    collisions: map<TargetId, seq<CollisionMember>>,
    ancestorContext: map<TargetId, seq<string>>)

  function Resolve(ref: string, seen: Option<string>, ids: set<TargetId>): Edge
  {
    Edge(ref, if ParseRef(ref) in ids then Some(ParseRef(ref)) else None, seen)
  }

  // ---- registering ids ----------------------------------------------------------------

  /** One id a document contributes, and what is known of it. */
  datatype Registration = Registration(target: TargetId, location: Location,
                                       collision: Option<seq<CollisionMember>>, context: seq<string>)

  /** A document's ids in the order they are registered: the file, then its sections. */
  function RegistrationsOf(d: Doc): (regs: seq<Registration>)
    ensures |regs| == 1 + |d.sections|
  {
    [Registration(d.Own(), Location(d.path, true, Span(1, d.totalLines)), None, [])]
    + seq(|d.sections|, k requires 0 <= k < |d.sections| =>
        Registration(d.At(k), Location(d.path, false, d.sections[k].span), d.sections[k].collision,
                     d.sections[k].context))
  }

  function AllRegistrations(docs: seq<Doc>): seq<Registration>
  {
    if docs == [] then []
    else AllRegistrations(docs[..|docs| - 1]) + RegistrationsOf(docs[|docs| - 1])
  }

  predicate DistinctTargets(regs: seq<Registration>)
  {
    forall i, j :: 0 <= i < j < |regs| ==> regs[i].target != regs[j].target
  }

  predicate Registers(regs: seq<Registration>, t: TargetId)
  {
    exists i :: 0 <= i < |regs| && regs[i].target == t
  }

  datatype Registry = Registry(index: map<TargetId, Location>, collisions: map<TargetId, seq<CollisionMember>>,
                               context: map<TargetId, seq<string>>)
  {
    ghost predicate Knows(reg: Registration) {
      && reg.target in index && index[reg.target] == reg.location
      && (if reg.collision.Some? then reg.target in collisions && collisions[reg.target] == reg.collision.value
          else reg.target !in collisions)
      && (if reg.context != [] then reg.target in context && context[reg.target] == reg.context
          else reg.target !in context)
    }

    /** Exactly the registrations of `regs` are known. */
    ghost predicate Holds(regs: seq<Registration>) {
      && (forall i :: 0 <= i < |regs| ==> Knows(regs[i]))
      && (forall t :: t in index ==> Registers(regs, t))
      && collisions.Keys <= index.Keys && context.Keys <= index.Keys
    }

    function With(reg: Registration): Registry {
      Registry(index[reg.target := reg.location],
               if reg.collision.Some? then collisions[reg.target := reg.collision.value] else collisions,
               if reg.context != [] then context[reg.target := reg.context] else context)
    }
  }

  lemma {:induction false} StillKnows(r: Registry, reg: Registration, other: Registration)
    requires r.Knows(other) && other.target != reg.target
    ensures r.With(reg).Knows(other)
  {
  }

  lemma {:induction false} RegistersAppend(regs: seq<Registration>, reg: Registration, t: TargetId)
    ensures Registers(regs + [reg], t) <==> Registers(regs, t) || t == reg.target
  {
    var more := regs + [reg];
    if Registers(regs, t) {
      var i :| 0 <= i < |regs| && regs[i].target == t;
      assert more[i].target == t;
    }
    if t == reg.target {
      assert more[|regs|].target == t;
    }
  }

  lemma {:induction false} OneMoreRegistration(r: Registry, regs: seq<Registration>, reg: Registration)
    requires r.Holds(regs) && reg.target !in r.index
    ensures r.With(reg).Holds(regs + [reg])
  {
    var now, more := r.With(reg), regs + [reg];
    assert reg.target !in r.collisions && reg.target !in r.context;
    forall i | 0 <= i < |more| ensures now.Knows(more[i]) {
      if i < |regs| {
        assert r.Knows(regs[i]);
        StillKnows(r, reg, regs[i]);
      }
    }
    forall t | t in now.index ensures Registers(more, t) {
      RegistersAppend(regs, reg, t);
    }
  }

  lemma {:induction false} StillDistinct(r: Registry, regs: seq<Registration>, reg: Registration)
    requires r.Holds(regs) && reg.target !in r.index && DistinctTargets(regs)
    ensures DistinctTargets(regs + [reg])
  {
    forall i | 0 <= i < |regs| ensures regs[i].target != reg.target {
      assert r.Knows(regs[i]);
    }
  }

  lemma {:induction false} AlreadyRegistered(r: Registry, regs: seq<Registration>, reg: Registration,
                                             rest: seq<Registration>)
    requires r.Holds(regs) && reg.target in r.index
    ensures !DistinctTargets(regs + [reg] + rest)
  {
    var i :| 0 <= i < |regs| && regs[i].target == reg.target;
    var all := regs + [reg] + rest;
    assert all[i] == regs[i] && all[|regs|] == reg;
  }

  /** What is known determines the registry. */
  lemma {:induction false} SameRegistry(a: Registry, b: Registry, regs: seq<Registration>)
    requires a.Holds(regs) && b.Holds(regs)
    ensures a == b
  {
    forall t | t in a.index || t in b.index
      ensures t in a.index && t in b.index && a.index[t] == b.index[t]
      ensures t in a.collisions <==> t in b.collisions
      ensures t in a.collisions ==> a.collisions[t] == b.collisions[t]
      ensures t in a.context <==> t in b.context
      ensures t in a.context ==> a.context[t] == b.context[t]
    {
      var i :| 0 <= i < |regs| && regs[i].target == t;
      assert a.Knows(regs[i]) && b.Knows(regs[i]);
    }
    assert a.index == b.index && a.collisions == b.collisions && a.context == b.context;
  }

  datatype Registering = Done(registry: Registry) | Duplicate(target: TargetId)

  /** Register one id, unless something has it. */
  method Register(registry: Registry, reg: Registration, ghost regs: seq<Registration>) returns (r: Registering)
    requires registry.Holds(regs)
    ensures r.Duplicate? <==> reg.target in registry.index
    ensures r.Duplicate? ==> r.target == reg.target
    ensures r.Done? ==> r.registry.Holds(regs + [reg])
    ensures r.Done? && DistinctTargets(regs) ==> DistinctTargets(regs + [reg])
    ensures r.Duplicate? ==> forall rest :: !DistinctTargets(regs + [reg] + rest)
  {
    if reg.target in registry.index {
      forall rest ensures !DistinctTargets(regs + [reg] + rest) { AlreadyRegistered(registry, regs, reg, rest); }
      return Duplicate(reg.target);
    }
    OneMoreRegistration(registry, regs, reg);
    if DistinctTargets(regs) { StillDistinct(registry, regs, reg); }
    return Done(registry.With(reg));
  }

  lemma PastTheNext<T>(s: seq<T>, own: seq<T>, k: nat, rest: seq<T>)
    requires k < |own|
    ensures s + own[..k + 1] == (s + own[..k]) + [own[k]]
    ensures s + own + rest == (s + own[..k]) + [own[k]] + (own[k + 1..] + rest)
  {
  }

  /** The k-th of `own` is the first to register an id again. */
  ghost predicate FirstAgain(regs: seq<Registration>, own: seq<Registration>, k: nat, t: TargetId)
  {
    k < |own| && own[k].target == t && DistinctTargets(regs + own[..k]) && Registers(regs + own[..k], t)
  }

  /** Register a document's file and sections. */
  method RegisterDoc(registry: Registry, d: Doc, ghost regs: seq<Registration>) returns (r: Registering)
    requires registry.Holds(regs) && DistinctTargets(regs)
    ensures r.Done? ==> r.registry.Holds(regs + RegistrationsOf(d)) && DistinctTargets(regs + RegistrationsOf(d))
    ensures r.Duplicate? ==> forall rest :: !DistinctTargets(regs + RegistrationsOf(d) + rest)
    ensures r.Duplicate? ==> exists k :: FirstAgain(regs, RegistrationsOf(d), k, r.target)
  {
    var own := RegistrationsOf(d);
    r := Done(registry);
    assert regs + own[..0] == regs;
    for k := 0 to |own|
      invariant r.Done? && r.registry.Holds(regs + own[..k]) && DistinctTargets(regs + own[..k])
    {
      ghost var before := regs + own[..k];
      PastTheNext(regs, own, k, []);
      r := Register(r.registry, own[k], before);
      if r.Duplicate? {
        assert Registers(before, r.target);
        assert FirstAgain(regs, own, k, r.target);
        forall rest ensures !DistinctTargets(regs + own + rest) {
          PastTheNext(regs, own, k, rest);
        }
        return;
      }
    }
    assert own[..|own|] == own;
  }

  lemma {:induction false} RegistrationsSplit(docs: seq<Doc>, n: nat)
    requires n < |docs|
    ensures exists rest ::
      AllRegistrations(docs) == AllRegistrations(docs[..n]) + RegistrationsOf(docs[n]) + rest
  {
    if n == |docs| - 1 {
      assert AllRegistrations(docs) == AllRegistrations(docs[..n]) + RegistrationsOf(docs[n]) + [];
    } else {
      var front, last := docs[..|docs| - 1], RegistrationsOf(docs[|docs| - 1]);
      RegistrationsSplit(front, n);
      assert front[..n] == docs[..n];
      var rest :| AllRegistrations(front) == AllRegistrations(front[..n]) + RegistrationsOf(front[n]) + rest;
      assert AllRegistrations(docs) == AllRegistrations(docs[..n]) + RegistrationsOf(docs[n]) + (rest + last);
    }
  }

  /** Register every document, or name an id that is registered twice. */
  method RegisterAll(docs: seq<Doc>) returns (r: Registering)
    ensures r.Done? <==> DistinctTargets(AllRegistrations(docs))
    ensures r.Done? ==> r.registry.Holds(AllRegistrations(docs))
    ensures r.Duplicate? ==> exists i, k ::
      0 <= i < |docs| && FirstAgain(AllRegistrations(docs[..i]), RegistrationsOf(docs[i]), k, r.target)
  {
    r := Done(Registry(map[], map[], map[]));
    for i := 0 to |docs|
      invariant r.Done? && r.registry.Holds(AllRegistrations(docs[..i]))
      invariant DistinctTargets(AllRegistrations(docs[..i]))
    {
      assert docs[..i + 1][..i] == docs[..i];
      ghost var before := AllRegistrations(docs[..i]);
      r := RegisterDoc(r.registry, docs[i], before);
      if r.Duplicate? {
        RegistrationsSplit(docs, i);
        return;
      }
    }
    assert docs[..|docs|] == docs;
  }

  // ---- ancestors ---------------------------------------------------------------------

  ghost predicate NamesChain(ids: seq<TargetId>, d: Doc, chain: seq<nat>)
  {
    && |ids| == |chain|
    && forall p :: 0 <= p < |chain| ==> chain[p] < |d.sections| && ids[p] == d.At(chain[p])
  }

  /** The k-th section's ancestors are those the one-stack pass keeps for it. */
  ghost predicate AncestorsAt(ancestors: map<TargetId, seq<TargetId>>, d: Doc, k: nat)
    requires k < |d.sections|
  {
    && d.At(k) in ancestors
    && exists chain :: KeptAt(ReachedBy(d.Spans()), chain, k) && NamesChain(ancestors[d.At(k)], d, chain)
  }

  ghost predicate AncestorsOf(ancestors: map<TargetId, seq<TargetId>>, d: Doc)
  {
    forall k :: 0 <= k < |d.sections| ==> AncestorsAt(ancestors, d, k)
  }

  predicate DistinctAnchors(d: Doc)
  {
    forall j, k :: 0 <= j < k < |d.sections| ==> d.sections[j].anchor != d.sections[k].anchor
  }

  /** Record the ancestors of one document's sections. */
  method RecordDoc(ancestors: map<TargetId, seq<TargetId>>, d: Doc) returns (now: map<TargetId, seq<TargetId>>)
    requires DistinctAnchors(d)
    ensures AncestorsOf(now, d)
    ensures forall t: TargetId :: t.fileId != d.id ==> (t in now <==> t in ancestors)
    ensures forall t: TargetId :: t.fileId != d.id && t in ancestors ==> now[t] == ancestors[t]
  {
    var chains := RecordAncestors(d.Spans());
    now := ancestors;
    for k := 0 to |d.sections|
      invariant forall j :: 0 <= j < k ==> AncestorsAt(now, d, j)
      invariant forall t: TargetId :: t.fileId != d.id ==> (t in now <==> t in ancestors)
      invariant forall t: TargetId :: t.fileId != d.id && t in ancestors ==> now[t] == ancestors[t]
    {
      var chain := chains[k];
      forall p | 0 <= p < |chain| ensures chain[p] < |d.sections| { assert chain[p] in chain; }
      var ids := seq(|chain|, p requires 0 <= p < |chain| && chain[p] < |d.sections| => d.At(chain[p]));
      assert NamesChain(ids, d, chain);
      ghost var before := now;
      now := now[d.At(k) := ids];
      forall j | 0 <= j < k ensures AncestorsAt(now, d, j) {
        assert AncestorsAt(before, d, j) && d.At(j) != d.At(k);
      }
    }
  }

  // ---- edges -------------------------------------------------------------------------

  function TargetsOf(raws: seq<RawEdge>): (r: seq<TargetId>)
    ensures |r| == |raws|
  {
    seq(|raws|, k requires 0 <= k < |raws| => ParseRef(raws[k].ref))
  }

  function Resolved(raws: seq<RawEdge>, ids: set<TargetId>): (r: seq<Edge>)
    ensures |r| == |raws|
  {
    seq(|raws|, k requires 0 <= k < |raws| => Resolve(raws[k].ref, raws[k].seen, ids))
  }

  ghost predicate EdgesFrom(raws: seq<RawEdge>, ids: set<TargetId>, edges: seq<Edge>,
                            order: seq<TargetId>, deduped: map<TargetId, Edge>)
  {
    && Filled(TargetsOf(raws), Resolved(raws, ids), order, deduped)
    && |edges| == |order|
    && forall i :: 0 <= i < |order| ==> order[i] in deduped && edges[i] == deduped[order[i]]
  }

  /** One edge to each target the entries name, resolved from the last entry naming it, in the
      order the targets are first named. */
  ghost predicate EdgesFor(raws: seq<RawEdge>, ids: set<TargetId>, edges: seq<Edge>)
  {
    exists order, deduped :: EdgesFrom(raws, ids, edges, order, deduped)
  }

  ghost predicate FilledSoFar(raws: seq<RawEdge>, ids: set<TargetId>, i: nat, order: seq<TargetId>,
                              deduped: map<TargetId, Edge>)
    requires i <= |raws|
  {
    Filled(TargetsOf(raws)[..i], Resolved(raws, ids)[..i], order, deduped)
  }

  lemma {:induction false} FillEntry(raws: seq<RawEdge>, ids: set<TargetId>, i: nat, order: seq<TargetId>,
                                     deduped: map<TargetId, Edge>)
    requires i < |raws| && FilledSoFar(raws, ids, i, order, deduped)
    ensures var target, edge := ParseRef(raws[i].ref), Resolve(raws[i].ref, raws[i].seen, ids);
      FilledSoFar(raws, ids, i + 1, if target in deduped then order else order + [target], deduped[target := edge])
  {
    FillPrefix(TargetsOf(raws), Resolved(raws, ids), i, order, deduped);
  }

  lemma {:induction false} NothingFilled(raws: seq<RawEdge>, ids: set<TargetId>)
    ensures FilledSoFar(raws, ids, 0, [], map[])
  {
    assert ByFirstUse(TargetsOf(raws)[..0], [], []);
  }

  lemma {:induction false} AllFilled(raws: seq<RawEdge>, ids: set<TargetId>, order: seq<TargetId>,
                                     deduped: map<TargetId, Edge>)
    requires FilledSoFar(raws, ids, |raws|, order, deduped)
    ensures forall i :: 0 <= i < |order| ==> order[i] in deduped
    ensures EdgesFor(raws, ids, Values(order, deduped))
  {
    assert TargetsOf(raws)[..|raws|] == TargetsOf(raws) && Resolved(raws, ids)[..|raws|] == Resolved(raws, ids);
    forall i | 0 <= i < |order| ensures order[i] in deduped { assert order[i] in order; }
    assert EdgesFrom(raws, ids, Values(order, deduped), order, deduped);
  }

  /** Resolve a document's entries, the last one to name a target winning. */
  method ResolveEdges(raws: seq<RawEdge>, index: map<TargetId, Location>) returns (edges: seq<Edge>)
    ensures EdgesFor(raws, index.Keys, edges)
  {
    var order: seq<TargetId>, deduped: map<TargetId, Edge> := [], map[];
    NothingFilled(raws, index.Keys);
    for i := 0 to |raws|
      invariant FilledSoFar(raws, index.Keys, i, order, deduped)
    {
      FillEntry(raws, index.Keys, i, order, deduped);
      var target := ParseRef(raws[i].ref);
      if target !in deduped {
        order := order + [target];
      }
      deduped := deduped[target := Resolve(raws[i].ref, raws[i].seen, index.Keys)];
    }
    AllFilled(raws, index.Keys, order, deduped);
    edges := Values(order, deduped);
  }

  /** Each edge comes from the last entry that names its target. */
  ghost predicate FromLast(raws: seq<RawEdge>, ids: set<TargetId>, e: Edge)
  {
    LastValue(TargetsOf(raws), Resolved(raws, ids), ParseRef(e.targetRef), e)
  }

  lemma {:induction false} EdgeFromLast(raws: seq<RawEdge>, ids: set<TargetId>, edges: seq<Edge>, i: nat)
    requires EdgesFor(raws, ids, edges) && i < |edges|
    ensures FromLast(raws, ids, edges[i])
  {
    var order, deduped :| EdgesFrom(raws, ids, edges, order, deduped);
    EdgeTarget(raws, ids, edges, order, deduped, i);
  }

  /** Two edges of one document never name the same target, so never the same ref. */
  lemma {:induction false} EdgesDistinct(raws: seq<RawEdge>, ids: set<TargetId>, edges: seq<Edge>, i: nat, j: nat)
    requires EdgesFor(raws, ids, edges) && i < j < |edges|
    ensures ParseRef(edges[i].targetRef) != ParseRef(edges[j].targetRef)
  {
    var order, deduped :| EdgesFrom(raws, ids, edges, order, deduped);
    KeysDistinct(TargetsOf(raws), Resolved(raws, ids), order, deduped, i, j);
    EdgeTarget(raws, ids, edges, order, deduped, i);
    EdgeTarget(raws, ids, edges, order, deduped, j);
  }

  lemma {:induction false} EdgeTarget(raws: seq<RawEdge>, ids: set<TargetId>, edges: seq<Edge>,
                   order: seq<TargetId>, deduped: map<TargetId, Edge>, i: nat)
    requires EdgesFrom(raws, ids, edges, order, deduped) && i < |edges|
    ensures ParseRef(edges[i].targetRef) == order[i] && FromLast(raws, ids, edges[i])
  {
    var e := deduped[order[i]];
    assert LastValue(TargetsOf(raws), Resolved(raws, ids), order[i], e);
    LastTarget(raws, ids, order[i], e);
  }

  lemma {:induction false} LastTarget(raws: seq<RawEdge>, ids: set<TargetId>, t: TargetId, e: Edge)
    requires LastValue(TargetsOf(raws), Resolved(raws, ids), t, e)
    ensures ParseRef(e.targetRef) == t
  {
    var k: nat :| LastUse(TargetsOf(raws), k) && TargetsOf(raws)[k] == t && Resolved(raws, ids)[k] == e;
    assert e.targetRef == raws[k].ref;
  }

  /** Every target an entry names has an edge. */
  lemma {:induction false} EntryHasEdge(raws: seq<RawEdge>, ids: set<TargetId>, edges: seq<Edge>, k: nat)
    returns (i: nat)
    requires EdgesFor(raws, ids, edges) && k < |raws|
    ensures i < |edges| && ParseRef(edges[i].targetRef) == ParseRef(raws[k].ref)
  {
    var order, deduped :| EdgesFrom(raws, ids, edges, order, deduped);
    assert TargetsOf(raws)[k] in deduped;
    i :| 0 <= i < |order| && order[i] == TargetsOf(raws)[k];
    EdgeTarget(raws, ids, edges, order, deduped, i);
  }

  lemma {:induction false} LastEntry(raws: seq<RawEdge>, ids: set<TargetId>, e: Edge) returns (k: nat)
    requires FromLast(raws, ids, e)
    ensures k < |raws| && LastUse(TargetsOf(raws), k) && e == Resolve(raws[k].ref, raws[k].seen, ids)
  {
    k :| LastUse(TargetsOf(raws), k) && TargetsOf(raws)[k] == ParseRef(e.targetRef) && Resolved(raws, ids)[k] == e;
  }

  /** The edge an entry that is the last for its target resolves to is one of the document's. */
  lemma {:induction false} LastEntryIsEdge(raws: seq<RawEdge>, ids: set<TargetId>, edges: seq<Edge>, k: nat)
    requires EdgesFor(raws, ids, edges) && k < |raws| && LastUse(TargetsOf(raws), k)
    ensures Resolve(raws[k].ref, raws[k].seen, ids) in edges
  {
    var i := EntryHasEdge(raws, ids, edges, k);
    EdgeFromLast(raws, ids, edges, i);
    SameLast(raws, ids, edges[i], k);
  }

  lemma {:induction false} SameLast(raws: seq<RawEdge>, ids: set<TargetId>, e: Edge, k: nat)
    requires FromLast(raws, ids, e) && k < |raws| && LastUse(TargetsOf(raws), k)
    requires ParseRef(e.targetRef) == ParseRef(raws[k].ref)
    ensures e == Resolve(raws[k].ref, raws[k].seen, ids)
  {
    var targets, resolved := TargetsOf(raws), Resolved(raws, ids);
    assert LastValue(targets, resolved, targets[k], resolved[k]);
    LastValueUnique(targets, resolved, targets[k], e, resolved[k]);
  }

  // ---- the whole lattice --------------------------------------------------------------

  function IdsOf(docs: seq<Doc>): set<string>
  {
    set d | d in docs :: d.id
  }

  /** The nodes of some documents, their edges resolved against `ids`. */
  ghost predicate NodesOf(nodes: map<string, Node>, docs: seq<Doc>, ids: set<TargetId>)
  {
    && nodes.Keys == IdsOf(docs)
    && forall d {:trigger NodeOf(nodes, d, ids)} :: d in docs ==> NodeOf(nodes, d, ids)
  }

  ghost predicate NodeOf(nodes: map<string, Node>, d: Doc, ids: set<TargetId>)
  {
    && d.id in nodes && nodes[d.id].id == d.id && nodes[d.id].path == d.path && nodes[d.id].body == d.body
    && EdgesFor(d.derivesFrom, ids, nodes[d.id].derivesFrom)
  }

  /** Some edge of the node resolves to the target. */
  predicate Derives(n: Node, t: TargetId)
  {
    exists e :: e in n.derivesFrom && e.targetId == Some(t)
  }

  /** The reverse adjacency: the nodes that derive from each target. */
  ghost predicate DependentsOf(dependents: map<TargetId, set<string>>, nodes: map<string, Node>)
  {
    && (forall t, id :: t in dependents && id in dependents[t] ==> id in nodes && Derives(nodes[id], t))
    && (forall t, id :: id in nodes && Derives(nodes[id], t) ==> t in dependents && id in dependents[t])
  }

  /** The cross-map consistency every command relies on. */
  ghost predicate Consistent(l: Lattice, docs: seq<Doc>)
  {
    && DistinctTargets(AllRegistrations(docs))
    && Registry(l.index, l.collisions, l.ancestorContext).Holds(AllRegistrations(docs))
    && (forall d {:trigger AncestorsOf(l.ancestors, d)} :: d in docs ==> AncestorsOf(l.ancestors, d))
    && NodesOf(l.nodesById, docs, l.index.Keys)
    && DependentsOf(l.dependents, l.nodesById)
    && PathsOf(l.fileIdByPath, l.anchorsByPath, l.nodesById, l.index)
    && l.fileIdByPath == Owners(docs)
  }

  /** The last document at each path owns it. */
  function Owners(docs: seq<Doc>): map<string, string>
  {
    if docs == [] then map[] else Owners(docs[..|docs| - 1])[docs[|docs| - 1].path := docs[|docs| - 1].id]
  }

  /** A node owns each node's path, and a path's anchors are the sections indexed there. */
  ghost predicate PathsOf(fileIdByPath: map<string, string>, anchorsByPath: map<string, set<TargetId>>,
                          nodes: map<string, Node>, index: map<TargetId, Location>)
  {
    && (forall id :: id in nodes ==> nodes[id].path in fileIdByPath)
    && (forall p :: p in fileIdByPath ==> fileIdByPath[p] in nodes && nodes[fileIdByPath[p]].path == p)
    && anchorsByPath.Keys == fileIdByPath.Keys
    && (forall p, t :: p in anchorsByPath ==>
          (t in anchorsByPath[p] <==> t in index && !index[t].isFile && index[t].path == p))
  }

  datatype Building = Built(lattice: Lattice) | DuplicateId(target: TargetId)

  /** The ancestors of every document's sections. */
  method RecordAll(docs: seq<Doc>) returns (ancestors: map<TargetId, seq<TargetId>>)
    requires DistinctTargets(AllRegistrations(docs))
    ensures forall d :: d in docs ==> AncestorsOf(ancestors, d)
  {
    ancestors := map[];
    for i := 0 to |docs|
      invariant forall j :: 0 <= j < i ==> AncestorsOf(ancestors, docs[j])
    {
      DocsDistinct(docs, i);
      ghost var before := ancestors;
      ancestors := RecordDoc(ancestors, docs[i]);
      forall j | 0 <= j < i ensures AncestorsOf(ancestors, docs[j]) {
        StillAncestors(before, ancestors, docs[j], docs[i].id);
      }
    }
  }

  lemma {:induction false} StillAncestors(before: map<TargetId, seq<TargetId>>,
                                          now: map<TargetId, seq<TargetId>>, d: Doc, id: string)
    requires AncestorsOf(before, d) && d.id != id
    requires forall t: TargetId :: t.fileId != id ==> (t in now <==> t in before)
    requires forall t: TargetId :: t.fileId != id && t in before ==> now[t] == before[t]
    ensures AncestorsOf(now, d)
  {
    forall k | 0 <= k < |d.sections| ensures AncestorsAt(now, d, k) {
      assert AncestorsAt(before, d, k) && d.At(k).fileId == d.id;
    }
  }

  /** Distinct targets mean distinct files and distinct anchors in each. */
  lemma {:induction false} DocsDistinct(docs: seq<Doc>, i: nat)
    requires DistinctTargets(AllRegistrations(docs)) && i < |docs|
    ensures DistinctAnchors(docs[i])
    ensures forall j :: 0 <= j < i ==> docs[j].id != docs[i].id
  {
    RegistrationsSplit(docs, i);
    var before, own := AllRegistrations(docs[..i]), RegistrationsOf(docs[i]);
    var rest :| AllRegistrations(docs) == before + own + rest;
    var all := before + own + rest;
    forall j, k | 0 <= j < k < |docs[i].sections| ensures docs[i].sections[j].anchor != docs[i].sections[k].anchor {
      assert all[|before| + 1 + j] == own[1 + j] && all[|before| + 1 + k] == own[1 + k];
    }
    forall j | 0 <= j < i ensures docs[j].id != docs[i].id {
      RegistrationsSplit(docs[..i], j);
      assert docs[..i][..j] == docs[..j];
      var earlier, theirs := AllRegistrations(docs[..j]), RegistrationsOf(docs[j]);
      var after :| before == earlier + theirs + after;
      assert all[|earlier|] == theirs[0] && all[|before|] == own[0];
    }
  }

  /** The reverse adjacency of the nodes. */
  method ReverseEdges(nodes: map<string, Node>) returns (dependents: map<TargetId, set<string>>)
    ensures DependentsOf(dependents, nodes)
  {
    dependents := map[];
    var todo := nodes.Keys;
    while todo != {}
      invariant todo <= nodes.Keys
      invariant forall t, id :: t in dependents && id in dependents[t] ==> id in nodes && Derives(nodes[id], t)
      invariant forall t, id :: id in nodes && id !in todo && Derives(nodes[id], t) ==>
        t in dependents && id in dependents[t]
      decreases todo
    {
      var id :| id in todo;
      dependents := AddDependent(dependents, nodes[id], id);
      todo := todo - {id};
    }
  }

  method AddDependent(dependents: map<TargetId, set<string>>, n: Node, id: string)
    returns (now: map<TargetId, set<string>>)
    ensures forall t :: t in now <==> t in dependents || Derives(n, t)
    ensures forall t, other :: t in now ==>
      (other in now[t] <==> (t in dependents && other in dependents[t]) || (Derives(n, t) && other == id))
  {
    now := dependents;
    for i := 0 to |n.derivesFrom|
      invariant forall t :: t in now <==> t in dependents || DerivesBy(n, i, t)
      invariant forall t, other :: t in now ==>
        (other in now[t] <==> (t in dependents && other in dependents[t]) || (DerivesBy(n, i, t) && other == id))
    {
      var target := n.derivesFrom[i].targetId;
      if target.Some? {
        var known := if target.value in now then now[target.value] else {};
        now := now[target.value := known + {id}];
      }
    }
  }

  /** Some edge before the i-th resolves to the target. */
  predicate DerivesBy(n: Node, i: nat, t: TargetId)
  {
    exists k :: 0 <= k < i && k < |n.derivesFrom| && n.derivesFrom[k].targetId == Some(t)
  }

  lemma {:induction false} OneMoreNode(nodes: map<string, Node>, docs: seq<Doc>, ids: set<TargetId>, d: Doc, n: Node)
    requires NodesOf(nodes, docs, ids) && d.id !in nodes
    requires n.id == d.id && n.path == d.path && n.body == d.body && EdgesFor(d.derivesFrom, ids, n.derivesFrom)
    ensures NodesOf(nodes[d.id := n], docs + [d], ids)
  {
    var now := nodes[d.id := n];
    assert forall c :: c in docs + [d] <==> c in docs || c == d;
    forall c | c in docs ensures NodeOf(now, c, ids) {
      assert NodeOf(nodes, c, ids);
    }
    assert NodeOf(now, d, ids);
    forall id ensures id in IdsOf(docs + [d]) <==> id in IdsOf(docs) || id == d.id {
      assert d in docs + [d];
    }
  }

  /** The nodes of the documents. */
  method BuildNodes(docs: seq<Doc>, index: map<TargetId, Location>) returns (nodes: map<string, Node>)
    requires DistinctTargets(AllRegistrations(docs))
    ensures NodesOf(nodes, docs, index.Keys)
  {
    nodes := map[];
    for i := 0 to |docs|
      invariant NodesOf(nodes, docs[..i], index.Keys)
    {
      var d := docs[i];
      DocsDistinct(docs, i);
      var edges := ResolveEdges(d.derivesFrom, index);
      var node := Node(d.id, d.path, d.body, edges);
      OneMoreNode(nodes, docs[..i], index.Keys, d, node);
      PrefixNext(docs, i);
      nodes := nodes[d.id := node];
    }
    assert docs[..|docs|] == docs;
  }

  method OwnersByPath(docs: seq<Doc>) returns (fileIdByPath: map<string, string>)
    ensures fileIdByPath == Owners(docs)
  {
    fileIdByPath := map[];
    for i := 0 to |docs|
      invariant fileIdByPath == Owners(docs[..i])
    {
      assert docs[..i + 1][..i] == docs[..i];
      fileIdByPath := fileIdByPath[docs[i].path := docs[i].id];
    }
    assert docs[..|docs|] == docs;
  }

  lemma {:induction false} OwnersKnown(docs: seq<Doc>)
    ensures forall d :: d in docs ==> d.path in Owners(docs)
    ensures forall p :: p in Owners(docs) ==> exists d :: d in docs && d.path == p && d.id == Owners(docs)[p]
  {
    if docs != [] {
      var front, last := docs[..|docs| - 1], docs[|docs| - 1];
      OwnersKnown(front);
      assert docs == front + [last] && last in docs;
      forall p | p in Owners(docs) ensures exists d :: d in docs && d.path == p && d.id == Owners(docs)[p] {
        if p != last.path {
          var d :| d in front && d.path == p && d.id == Owners(front)[p];
          assert d in docs;
        }
      }
    }
  }

  lemma {:induction false} NodeHolds(nodes: map<string, Node>, docs: seq<Doc>, ids: set<TargetId>, d: Doc)
    requires NodesOf(nodes, docs, ids) && d in docs
    ensures d.id in nodes && nodes[d.id].path == d.path && nodes[d.id].body == d.body
  {
    assert NodeOf(nodes, d, ids);
  }

  lemma {:induction false} OwnersAreNodes(owners: map<string, string>, nodes: map<string, Node>, docs: seq<Doc>,
                                          ids: set<TargetId>)
    requires NodesOf(nodes, docs, ids) && owners == Owners(docs)
    ensures forall id :: id in nodes ==> nodes[id].path in owners
    ensures forall p :: p in owners ==> owners[p] in nodes && nodes[owners[p]].path == p
  {
    OwnersKnown(docs);
    forall id | id in nodes ensures nodes[id].path in owners {
      var d :| d in docs && d.id == id;
      NodeHolds(nodes, docs, ids, d);
    }
    forall p | p in owners ensures owners[p] in nodes && nodes[owners[p]].path == p {
      var d :| d in docs && d.path == p && d.id == owners[p];
      NodeHolds(nodes, docs, ids, d);
    }
  }

  /** The path lookups: the last document at each path owns it, and its sections are those the
      index places there. */
  method PathLookups(docs: seq<Doc>, nodes: map<string, Node>, index: map<TargetId, Location>)
    returns (fileIdByPath: map<string, string>, anchorsByPath: map<string, set<TargetId>>)
    requires NodesOf(nodes, docs, index.Keys)
    ensures PathsOf(fileIdByPath, anchorsByPath, nodes, index) && fileIdByPath == Owners(docs)
  {
    fileIdByPath := OwnersByPath(docs);
    OwnersAreNodes(fileIdByPath, nodes, docs, index.Keys);
    anchorsByPath := map p | p in fileIdByPath ::
      set t | t in index && !index[t].isFile && index[t].path == p;
  }

  // ---- the lattice, read off the documents ---------------------------------------------

  /** No two documents share an id, and no two sections of one document an anchor. */
  ghost predicate DistinctIds(docs: seq<Doc>)
  {
    && (forall i, j :: 0 <= i < j < |docs| ==> docs[i].id != docs[j].id)
    && (forall i :: 0 <= i < |docs| ==> DistinctAnchors(docs[i]))
  }

  /** `t` is the file of some document, or one of its sections. */
  ghost predicate Names(docs: seq<Doc>, t: TargetId)
  {
    exists d :: d in docs && NamedBy(d, t)
  }

  ghost predicate NamedBy(d: Doc, t: TargetId)
  {
    t == TargetId(d.id, None) || exists k :: 0 <= k < |d.sections| && t == TargetId(d.id, Some(d.sections[k].anchor))
  }

  /** The document's file is indexed as a whole, with no collision and no chain. */
  ghost predicate RecordsFile(l: Lattice, d: Doc)
  {
    var t := TargetId(d.id, None);
    && t in l.index && l.index[t] == Location(d.path, true, Span(1, d.totalLines))
    && t !in l.collisions && t !in l.ancestorContext
  }

  /** A section is indexed at its span, with its collision and its chain if it has one. */
  ghost predicate RecordsSection(l: Lattice, d: Doc, k: nat)
    requires k < |d.sections|
  {
    var t, record := TargetId(d.id, Some(d.sections[k].anchor)), d.sections[k];
    && t in l.index && l.index[t] == Location(d.path, false, record.span)
    && (t in l.collisions <==> record.collision.Some?)
    && (t in l.collisions ==> l.collisions[t] == record.collision.value)
    && (t in l.ancestorContext <==> record.context != [])
    && (t in l.ancestorContext ==> l.ancestorContext[t] == record.context)
  }

  /** No later entry has the same ref. */
  ghost predicate LastNaming(raws: seq<RawEdge>, k: nat)
  {
    k < |raws| && forall j :: k < j < |raws| ==> raws[j].ref != raws[k].ref
  }

  /** The edge an entry gives: resolved exactly if its ref names a file or section of the batch. */
  ghost predicate GivesEdge(docs: seq<Doc>, raw: RawEdge, e: Edge)
  {
    && e.targetRef == raw.ref && e.seen == raw.seen
    && (if Names(docs, ParseRef(raw.ref)) then e.targetId == Some(ParseRef(raw.ref)) else e.targetId == None)
  }

  /** The document's node: its edges are those the last entries for each ref give. */
  ghost predicate RecordsNode(l: Lattice, docs: seq<Doc>, d: Doc)
  {
    && d.id in l.nodesById
    && (var n := l.nodesById[d.id];
        && n.id == d.id && n.path == d.path && n.body == d.body
        && (forall e {:trigger GivenBy(docs, d.derivesFrom, e)} :: e in n.derivesFrom ==>
              GivenBy(docs, d.derivesFrom, e))
        && (forall k: nat {:trigger HasEdge(docs, d.derivesFrom, k, n.derivesFrom)} ::
              HasEdge(docs, d.derivesFrom, k, n.derivesFrom)))
  }

  ghost predicate GivenBy(docs: seq<Doc>, raws: seq<RawEdge>, e: Edge)
  {
    exists k: nat :: LastNaming(raws, k) && GivesEdge(docs, raws[k], e)
  }

  ghost predicate HasEdge(docs: seq<Doc>, raws: seq<RawEdge>, k: nat, edges: seq<Edge>)
  {
    LastNaming(raws, k) ==> exists e :: e in edges && GivesEdge(docs, raws[k], e)
  }

  /** The lattice is what the documents say, and nothing else. */
  ghost predicate Records(l: Lattice, docs: seq<Doc>)
  {
    && (forall d {:trigger RecordsFile(l, d)} :: d in docs ==> RecordsFile(l, d))
    && (forall d {:trigger RecordsNode(l, docs, d)} :: d in docs ==> RecordsNode(l, docs, d))
    && (forall d, k {:trigger RecordsSection(l, d, k)} :: d in docs && 0 <= k < |d.sections| ==>
          RecordsSection(l, d, k))
    && (forall t {:trigger Names(docs, t)} :: t in l.index ==> Names(docs, t))
    && l.collisions.Keys <= l.index.Keys && l.ancestorContext.Keys <= l.index.Keys
    && l.nodesById.Keys == IdsOf(docs)
  }

  ghost predicate EdgeOf(l: Lattice, id: string, e: Edge)
  {
    id in l.nodesById && e in l.nodesById[id].derivesFrom
  }

  /** The last entry for a ref gives the same edge as any other. */
  lemma {:induction false} LastWith(raws: seq<RawEdge>, k: nat) returns (n: nat)
    requires k < |raws|
    ensures LastNaming(raws, n) && raws[n].ref == raws[k].ref
    decreases |raws| - k
  {
    if j :| k < j < |raws| && raws[j].ref == raws[k].ref {
      n := LastWith(raws, j);
    } else {
      n := k;
    }
  }

  lemma {:induction false} EdgeOfEntry(l: Lattice, docs: seq<Doc>, d: Doc, k: nat) returns (e: Edge)
    requires Records(l, docs) && d in docs && LastNaming(d.derivesFrom, k)
    ensures EdgeOf(l, d.id, e) && GivesEdge(docs, d.derivesFrom[k], e)
  {
    assert RecordsNode(l, docs, d) && HasEdge(docs, d.derivesFrom, k, l.nodesById[d.id].derivesFrom);
    e :| e in l.nodesById[d.id].derivesFrom && GivesEdge(docs, d.derivesFrom[k], e);
  }

  /** A node derives from a target exactly if some entry of its document names it and it is there. */
  ghost predicate Resolves(docs: seq<Doc>, d: Doc, t: TargetId)
  {
    Names(docs, t) && exists k :: 0 <= k < |d.derivesFrom| && ParseRef(d.derivesFrom[k].ref) == t
  }

  lemma {:induction false} DerivesAsGiven(l: Lattice, docs: seq<Doc>, d: Doc, t: TargetId)
    requires Records(l, docs) && d in docs
    ensures d.id in l.nodesById && (Derives(l.nodesById[d.id], t) <==> Resolves(docs, d, t))
  {
    assert RecordsNode(l, docs, d);
    if Derives(l.nodesById[d.id], t) {
      var e :| e in l.nodesById[d.id].derivesFrom && e.targetId == Some(t);
      assert GivenBy(docs, d.derivesFrom, e);
    }
    if Resolves(docs, d, t) {
      var k :| 0 <= k < |d.derivesFrom| && ParseRef(d.derivesFrom[k].ref) == t;
      var n := LastWith(d.derivesFrom, k);
      var e := EdgeOfEntry(l, docs, d, n);
    }
  }

  lemma {:induction false} DistinctOwn(d: Doc)
    ensures DistinctTargets(RegistrationsOf(d)) <==> DistinctAnchors(d)
  {
    var own := RegistrationsOf(d);
    if DistinctTargets(own) {
      forall j, k | 0 <= j < k < |d.sections| ensures d.sections[j].anchor != d.sections[k].anchor {
        assert own[1 + j].target != own[1 + k].target;
      }
    }
  }

  /** The ids are registered once each exactly if they are distinct as the documents give them. */
  lemma {:induction false} DistinctAsGiven(docs: seq<Doc>)
    ensures DistinctTargets(AllRegistrations(docs)) <==> DistinctIds(docs)
  {
    if DistinctTargets(AllRegistrations(docs)) {
      forall i | 0 <= i < |docs|
        ensures DistinctAnchors(docs[i]) && forall j :: 0 <= j < i ==> docs[j].id != docs[i].id
      {
        DocsDistinct(docs, i);
      }
    }
    if DistinctIds(docs) {
      AllDistinct(docs);
    }
  }

  lemma {:induction false} AllDistinct(docs: seq<Doc>)
    requires DistinctIds(docs)
    ensures DistinctTargets(AllRegistrations(docs))
  {
    if docs == [] { return; }
    var front, last := docs[..|docs| - 1], docs[|docs| - 1];
    AllDistinct(front);
    DistinctOwn(last);
    var all, n := AllRegistrations(docs), |AllRegistrations(front)|;
    forall i, j | 0 <= i < j < |all| ensures all[i].target != all[j].target {
      if i < n <= j {
        var d := RegistrationOrigin(front, i);
        OwnRegistration(d, all[i]);
        OwnRegistration(last, RegistrationsOf(last)[j - n]);
      } else if n <= i {
        assert all[i] == RegistrationsOf(last)[i - n] && all[j] == RegistrationsOf(last)[j - n];
      }
    }
  }

  /** Two documents with the id, or two sections of one document with the anchor. */
  ghost predicate SharedBy(docs: seq<Doc>, t: TargetId)
  {
    || (t.anchor.None? && exists i, j :: 0 <= i < j < |docs| && docs[i].id == docs[j].id == t.fileId)
    || (t.anchor.Some? && exists d :: d in docs && d.id == t.fileId && SharedAnchor(d, t.anchor.value))
  }

  ghost predicate SharedAnchor(d: Doc, anchor: string)
  {
    exists j, k :: 0 <= j < k < |d.sections| && d.sections[j].anchor == d.sections[k].anchor == anchor
  }

  /** Where the first of `own` is registered already, no longer prefix is distinct. */
  lemma {:induction false} AgainAtOnce(regs: seq<Registration>, own: seq<Registration>, k: nat)
    requires k <= |own| && own != [] && Registers(regs, own[0].target)
    ensures k > 0 ==> !DistinctTargets(regs + own[..k])
  {
    if k > 0 {
      var b :| 0 <= b < |regs| && regs[b].target == own[0].target;
      var all := regs + own[..k];
      assert all[b].target == all[|regs|].target;
    }
  }

  lemma {:induction false} AgainIsShared(docs: seq<Doc>, i: nat, k: nat, t: TargetId)
    requires i < |docs| && FirstAgain(AllRegistrations(docs[..i]), RegistrationsOf(docs[i]), k, t)
    ensures SharedBy(docs, t)
  {
    var regs, own := AllRegistrations(docs[..i]), RegistrationsOf(docs[i]);
    var all := regs + own[..k];
    var a :| 0 <= a < |all| && all[a].target == t;
    if a < |regs| {
      var d := RegistrationOrigin(docs[..i], a);
      OwnRegistration(d, regs[a]);
      var j :| 0 <= j < i && docs[j] == d;
      FileIsRegistered(docs[..i], j);
      AgainAtOnce(regs, own, k);
    } else {
      assert all[a] == own[a - |regs|];
      assert SharedAnchor(docs[i], t.anchor.value);
    }
  }

  lemma {:induction false} FileIsRegistered(docs: seq<Doc>, j: nat)
    requires j < |docs|
    ensures Registers(AllRegistrations(docs), TargetId(docs[j].id, None))
  {
    RegistrationsSplit(docs, j);
    var before, own := AllRegistrations(docs[..j]), RegistrationsOf(docs[j]);
    var rest :| AllRegistrations(docs) == before + own + rest;
    assert AllRegistrations(docs)[|before|] == own[0];
  }

  lemma {:induction false} IndexedAsNamed(l: Lattice, docs: seq<Doc>, t: TargetId)
    requires Consistent(l, docs)
    ensures t in l.index <==> Names(docs, t)
  {
    var r := Registry(l.index, l.collisions, l.ancestorContext);
    if t in l.index {
      var d := IndexOrigin(r, docs, t);
      if t.anchor.Some? {
        var k :| 0 <= k < |d.sections| && t == d.At(k);
        assert t == TargetId(d.id, Some(d.sections[k].anchor));
      }
      assert NamedBy(d, t);
    }
    if Names(docs, t) {
      var d :| d in docs && NamedBy(d, t);
      if t == TargetId(d.id, None) {
        FileRecorded(l, docs, d);
      } else {
        var k :| 0 <= k < |d.sections| && t == TargetId(d.id, Some(d.sections[k].anchor));
        SectionRecorded(l, docs, d, k);
      }
    }
  }

  lemma {:induction false} FileRecorded(l: Lattice, docs: seq<Doc>, d: Doc)
    requires Consistent(l, docs) && d in docs
    ensures RecordsFile(l, d)
  {
    var r := Registry(l.index, l.collisions, l.ancestorContext);
    var i :| 0 <= i < |docs| && docs[i] == d;
    DocKnown(r, docs, i, 0);
    assert r.Knows(Registration(TargetId(d.id, None), Location(d.path, true, Span(1, d.totalLines)), None, []));
  }

  lemma {:induction false} SectionRecorded(l: Lattice, docs: seq<Doc>, d: Doc, k: nat)
    requires Consistent(l, docs) && d in docs && k < |d.sections|
    ensures RecordsSection(l, d, k)
  {
    var r, record := Registry(l.index, l.collisions, l.ancestorContext), d.sections[k];
    var i :| 0 <= i < |docs| && docs[i] == d;
    DocKnown(r, docs, i, 1 + k);
    assert r.Knows(Registration(TargetId(d.id, Some(record.anchor)), Location(d.path, false, record.span),
                                record.collision, record.context));
  }

  lemma {:induction false} NodeRecorded(l: Lattice, docs: seq<Doc>, d: Doc)
    requires Consistent(l, docs) && d in docs
    ensures RecordsNode(l, docs, d)
  {
    assert NodeOf(l.nodesById, d, l.index.Keys);
    var n, raws, ids := l.nodesById[d.id], d.derivesFrom, l.index.Keys;
    forall e | e in n.derivesFrom ensures GivenBy(docs, raws, e) {
      var i :| 0 <= i < |n.derivesFrom| && n.derivesFrom[i] == e;
      EdgeFromLast(raws, ids, n.derivesFrom, i);
      var k := LastEntry(raws, ids, e);
      LastUseNames(raws, k);
      IndexedAsNamed(l, docs, ParseRef(raws[k].ref));
      assert LastNaming(raws, k) && GivesEdge(docs, raws[k], e);
    }
    forall k: nat ensures HasEdge(docs, raws, k, n.derivesFrom) {
      if LastNaming(raws, k) {
        LastUseNames(raws, k);
        LastEntryIsEdge(raws, ids, n.derivesFrom, k);
        IndexedAsNamed(l, docs, ParseRef(raws[k].ref));
        assert GivesEdge(docs, raws[k], Resolve(raws[k].ref, raws[k].seen, ids));
      }
    }
  }

  /** Two entries name one target exactly if they have the same ref. */
  lemma {:induction false} LastUseNames(raws: seq<RawEdge>, k: nat)
    requires k < |raws|
    ensures LastUse(TargetsOf(raws), k) <==> LastNaming(raws, k)
  {
    forall j | k < j < |raws| ensures TargetsOf(raws)[j] == TargetsOf(raws)[k] <==> raws[j].ref == raws[k].ref {
      if ParseRef(raws[j].ref) == ParseRef(raws[k].ref) {
        ParseRefInjective(raws[j].ref, raws[k].ref);
      }
    }
  }

  /** A consistent lattice is what its documents say. */
  lemma {:induction false} ConsistentRecords(l: Lattice, docs: seq<Doc>)
    requires Consistent(l, docs)
    ensures Records(l, docs)
  {
    forall d | d in docs
      ensures RecordsFile(l, d) && RecordsNode(l, docs, d)
      ensures forall k :: 0 <= k < |d.sections| ==> RecordsSection(l, d, k)
    {
      FileRecorded(l, docs, d);
      NodeRecorded(l, docs, d);
      forall k | 0 <= k < |d.sections| ensures RecordsSection(l, d, k) { SectionRecorded(l, docs, d, k); }
    }
    forall t | t in l.index ensures Names(docs, t) {
      IndexedAsNamed(l, docs, t);
    }
  }

  /** Build the lattice, or name an id that two documents or sections share. */
  method BuildLattice(docs: seq<Doc>) returns (r: Building)
    ensures r.Built? <==> DistinctIds(docs)
    ensures r.Built? <==> DistinctTargets(AllRegistrations(docs))
    ensures r.DuplicateId? ==> SharedBy(docs, r.target)
    ensures r.Built? ==> Consistent(r.lattice, docs) && Records(r.lattice, docs)
  {
    DistinctAsGiven(docs);
    var registering := RegisterAll(docs);
    if registering.Duplicate? {
      ghost var i, k :| 0 <= i < |docs|
        && FirstAgain(AllRegistrations(docs[..i]), RegistrationsOf(docs[i]), k, registering.target);
      AgainIsShared(docs, i, k, registering.target);
      return DuplicateId(registering.target);
    }
    var registry := registering.registry;
    var ancestors := RecordAll(docs);
    var nodes := BuildNodes(docs, registry.index);
    var dependents := ReverseEdges(nodes);
    var fileIdByPath, anchorsByPath := PathLookups(docs, nodes, registry.index);
    var lattice := Lattice(nodes, registry.index, dependents, ancestors, fileIdByPath, anchorsByPath,
                           registry.collisions, registry.context);
    assert Registry(lattice.index, lattice.collisions, lattice.ancestorContext) == registry;
    ConsistentRecords(lattice, docs);
    return Built(lattice);
  }

  // ---- one file path, many targets -----------------------------------------------------

  /** A registered id comes from a document: its file, or one of its sections. */
  lemma {:induction false} RegistrationOrigin(docs: seq<Doc>, i: nat) returns (d: Doc)
    requires i < |AllRegistrations(docs)|
    ensures d in docs && AllRegistrations(docs)[i] in RegistrationsOf(d)
  {
    var front, last := docs[..|docs| - 1], docs[|docs| - 1];
    var n := |AllRegistrations(front)|;
    if i < n {
      d := RegistrationOrigin(front, i);
    } else {
      d := last;
      assert AllRegistrations(docs)[i] == RegistrationsOf(d)[i - n];
    }
  }

  /** Every id is registered by some document. */
  lemma {:induction false} IndexOrigin(r: Registry, docs: seq<Doc>, t: TargetId) returns (d: Doc)
    requires r.Holds(AllRegistrations(docs)) && t in r.index
    ensures d in docs && d.id == t.fileId && d.path == r.index[t].path
    ensures r.index[t].isFile <==> t.anchor.None?
    ensures t.anchor.Some? ==> exists k :: 0 <= k < |d.sections| && t == d.At(k)
  {
    var regs := AllRegistrations(docs);
    assert Registers(regs, t);
    var i :| 0 <= i < |regs| && regs[i].target == t;
    assert r.Knows(regs[i]);
    d := RegistrationOrigin(docs, i);
    OwnRegistration(d, regs[i]);
  }

  lemma {:induction false} OwnRegistration(d: Doc, reg: Registration)
    requires reg in RegistrationsOf(d)
    ensures d.id == reg.target.fileId && d.path == reg.location.path
    ensures reg.location.isFile <==> reg.target.anchor.None?
    ensures reg.target.anchor.Some? ==> exists k :: 0 <= k < |d.sections| && reg.target == d.At(k)
  {
    var own := RegistrationsOf(d);
    var k :| 0 <= k < |own| && own[k] == reg;
    if k > 0 { assert reg.target == d.At(k - 1); }
  }

  lemma {:induction false} PathKnown(l: Lattice, docs: seq<Doc>, d: Doc)
    requires Consistent(l, docs) && d in docs
    ensures d.id in l.nodesById && l.nodesById[d.id].path == d.path && d.path in l.fileIdByPath
  {
    NodeHolds(l.nodesById, docs, l.index.Keys, d);
    OwnersKnown(docs);
  }

  /** Whatever a document registers is in the index as it registered it. */
  lemma {:induction false} DocKnown(r: Registry, docs: seq<Doc>, i: nat, k: nat)
    requires r.Holds(AllRegistrations(docs)) && i < |docs| && k < |RegistrationsOf(docs[i])|
    ensures r.Knows(RegistrationsOf(docs[i])[k])
  {
    RegistrationsSplit(docs, i);
    var before, own := AllRegistrations(docs[..i]), RegistrationsOf(docs[i]);
    var rest :| AllRegistrations(docs) == before + own + rest;
    assert AllRegistrations(docs)[|before| + k] == own[k];
  }
}
