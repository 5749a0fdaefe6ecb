/** Drift: classifying edges, planning updates, and what applying a plan leaves. */
module Convergence {
  import opened LatticeModel
  import opened Sections
  import opened Wrappers
  import opened Dictionaries

  /** The content hash of what a location covers in a body, under its heading chain. */
  type Digest = (string, Location, seq<string>) -> string

  /** Every id's path is owned by a node. */
  ghost predicate Hashable(l: Lattice)
  {
    && (forall t :: t in l.index ==> l.index[t].path in l.fileIdByPath)
    && (forall p :: p in l.fileIdByPath ==> l.fileIdByPath[p] in l.nodesById)
    && (forall id, e :: id in l.nodesById && e in l.nodesById[id].derivesFrom && e.targetId.Some? ==>
          e.targetId.value in l.index)
  }

  function ContextOf(l: Lattice, t: TargetId): seq<string>
  {
    if t in l.ancestorContext then l.ancestorContext[t] else []
  }

  /** The live hash of a target's content. */
  function TargetHash(digest: Digest, l: Lattice, t: TargetId): string
    requires Hashable(l) && t in l.index
  {
    digest(l.nodesById[l.fileIdByPath[l.index[t].path]].body, l.index[t], ContextOf(l, t))
  }

  /** Every cached hash is the live one. */
  ghost predicate Agrees(cache: map<TargetId, string>, digest: Digest, l: Lattice)
    requires Hashable(l)
  {
    forall t :: t in cache ==> t in l.index && cache[t] == TargetHash(digest, l, t)
  }

  method CachedTargetHash(digest: Digest, l: Lattice, t: TargetId, cache: map<TargetId, string>)
    returns (hash: string, now: map<TargetId, string>)
    requires Hashable(l) && t in l.index && Agrees(cache, digest, l)
    ensures hash == TargetHash(digest, l, t) && Agrees(now, digest, l)
    // of the body of the node that owns the path, at the location and under the chain recorded for it
    ensures hash == digest(l.nodesById[l.fileIdByPath[l.index[t].path]].body, l.index[t],
                           if t in l.ancestorContext then l.ancestorContext[t] else [])
  {
    now := cache;
    if t !in now {
      now := now[t := TargetHash(digest, l, t)];
    }
    hash := now[t];
  }

  // ---- check -------------------------------------------------------------------------

  datatype EdgeState = OK | STALE | UNRECONCILED | BROKEN | AMBIGUOUS

  datatype EdgeStatus = EdgeStatus(sourceId: string, targetRef: string, targetId: Option<TargetId>,
                                   state: EdgeState, expected: Option<string>, actual: Option<string>)

  /** An edge whose target, if it has one, is registered. */
  predicate Live(l: Lattice, e: Edge)
  {
    e.targetId.Some? ==> e.targetId.value in l.index
  }

  /** What an edge's state means: no target; a target whose id can move to another heading; never
      locked; locked at the live hash; locked at another. */
  ghost function StateOf(digest: Digest, l: Lattice, e: Edge): EdgeState
    requires Hashable(l) && Live(l, e)
  {
    if e.targetId.None? then BROKEN
    else if e.targetId.value in l.collisions then AMBIGUOUS
    else if e.seen.None? then UNRECONCILED
    else if e.seen.value == TargetHash(digest, l, e.targetId.value) then OK
    else STALE
  }

  /** The edges of some nodes, in node then edge order. */
  function EdgesOf(l: Lattice, ids: seq<string>): seq<(string, Edge)>
    requires forall i :: 0 <= i < |ids| ==> ids[i] in l.nodesById
  {
    if ids == [] then []
    else
      var edges := l.nodesById[ids[|ids| - 1]].derivesFrom;
      EdgesOf(l, ids[..|ids| - 1])
      + seq(|edges|, k requires 0 <= k < |edges| => (ids[|ids| - 1], edges[k]))
  }

  lemma {:induction false} EdgesOfAre(l: Lattice, ids: seq<string>, id: string, e: Edge)
    requires forall i :: 0 <= i < |ids| ==> ids[i] in l.nodesById
    ensures (id, e) in EdgesOf(l, ids) <==> id in ids && e in l.nodesById[id].derivesFrom
  {
    if ids != [] {
      var front, last := ids[..|ids| - 1], ids[|ids| - 1];
      EdgesOfAre(l, front, id, e);
      var edges := l.nodesById[last].derivesFrom;
      var own := seq(|edges|, k requires 0 <= k < |edges| => (last, edges[k]));
      assert EdgesOf(l, ids) == EdgesOf(l, front) + own;
      assert ids == front + [last];
      if id == last && e in edges {
        var k :| 0 <= k < |edges| && edges[k] == e;
        assert own[k] == (id, e);
      }
    }
  }

  /** The i-th of the edges is the p-th of the a-th node. */
  ghost predicate PlacedAt(l: Lattice, ids: seq<string>, edges: seq<(string, Edge)>, i: nat, a: nat, p: nat)
  {
    && i < |edges| && a < |ids| && ids[a] in l.nodesById && p < |l.nodesById[ids[a]].derivesFrom|
    && edges[i] == (ids[a], l.nodesById[ids[a]].derivesFrom[p])
  }

  /** The edges come in the order of the nodes, and of each node's edges, one after the other: each is
      followed by its node's next edge, or is its node's last. */
  lemma {:induction false} EdgesInOrder(l: Lattice, ids: seq<string>, a: nat, p: nat) returns (i: nat)
    requires forall j :: 0 <= j < |ids| ==> ids[j] in l.nodesById
    requires a < |ids| && p < |l.nodesById[ids[a]].derivesFrom|
    ensures PlacedAt(l, ids, EdgesOf(l, ids), i, a, p)
    ensures i == |EdgesOf(l, ids[..a])| + p
    ensures |EdgesOf(l, ids[..a + 1])| == |EdgesOf(l, ids[..a])| + |l.nodesById[ids[a]].derivesFrom|
    decreases |ids|
  {
    var front, last := ids[..|ids| - 1], ids[|ids| - 1];
    if a < |front| {
      i := EdgesInOrder(l, front, a, p);
      assert front[..a] == ids[..a] && front[..a + 1] == ids[..a + 1];
    } else {
      i := |EdgesOf(l, front)| + p;
      assert front == ids[..a] && ids[..a + 1] == ids;
    }
  }

  ghost predicate StatusFor(digest: Digest, l: Lattice, source: string, e: Edge, s: EdgeStatus)
    requires Hashable(l) && Live(l, e)
  {
    var state := StateOf(digest, l, e);
    && s.sourceId == source && s.targetRef == e.targetRef && s.targetId == e.targetId && s.expected == e.seen
    && s.state == state
    && s.actual == if state in {BROKEN, AMBIGUOUS} then None else Some(TargetHash(digest, l, e.targetId.value))
  }

  method Classify(digest: Digest, l: Lattice, source: string, e: Edge, cache: map<TargetId, string>)
    returns (status: EdgeStatus, now: map<TargetId, string>)
    requires Hashable(l) && Live(l, e) && Agrees(cache, digest, l)
    ensures StatusFor(digest, l, source, e, status) && Agrees(now, digest, l)
  {
    now := cache;
    if e.targetId.None? {
      return EdgeStatus(source, e.targetRef, None, BROKEN, e.seen, None), now;
    }
    if e.targetId.value in l.collisions {
      return EdgeStatus(source, e.targetRef, e.targetId, AMBIGUOUS, e.seen, None), now;
    }
    var actual;
    actual, now := CachedTargetHash(digest, l, e.targetId.value, cache);
    if e.seen.None? {
      return EdgeStatus(source, e.targetRef, e.targetId, UNRECONCILED, None, Some(actual)), now;
    }
    var state := if actual == e.seen.value then OK else STALE;
    return EdgeStatus(source, e.targetRef, e.targetId, state, e.seen, Some(actual)), now;
  }

  /** One status to each edge of the nodes, in order. */
  method CheckLattice(digest: Digest, l: Lattice, ids: seq<string>) returns (statuses: seq<EdgeStatus>)
    requires Hashable(l) && forall i :: 0 <= i < |ids| ==> ids[i] in l.nodesById
    ensures |statuses| == |EdgesOf(l, ids)|
    ensures forall i :: 0 <= i < |statuses| ==>
      Live(l, EdgesOf(l, ids)[i].1)
      && StatusFor(digest, l, EdgesOf(l, ids)[i].0, EdgesOf(l, ids)[i].1, statuses[i])
  {
    var edges := EdgesOf(l, ids);
    var cache: map<TargetId, string> := map[];
    statuses := [];
    for i := 0 to |edges|
      invariant |statuses| == i && Agrees(cache, digest, l)
      invariant forall j :: 0 <= j < i ==>
        Live(l, edges[j].1) && StatusFor(digest, l, edges[j].0, edges[j].1, statuses[j])
    {
      EdgesOfAre(l, ids, edges[i].0, edges[i].1);
      var status;
      status, cache := Classify(digest, l, edges[i].0, edges[i].1, cache);
      statuses := statuses + [status];
    }
  }

  predicate HasDrift(statuses: seq<EdgeStatus>)
  {
    exists i :: 0 <= i < |statuses| && statuses[i].state != OK
  }

  // ---- reconcile ---------------------------------------------------------------------

  /** Every node, or one; every edge, or those of one ref. */
  datatype Request = Request(downstream: Option<string>, ref: Option<string>)
  {
    predicate Selects(e: Edge) {
      ref.None? || ParseRef(ref.value) == if e.targetId.Some? then e.targetId.value else ParseRef(e.targetRef)
    }

    predicate TargetsOneRef() { downstream.Some? && ref.Some? }
  }

  const EVERYTHING := Request(None, None)

  type Plan = map<(string, string), string>

  datatype Planning =
    | Planned(plan: Plan)
    | UnknownDownstream
    | NoSuchEdge
    | BrokenRef(source: string, edge: Edge)
    | AmbiguousRef(source: string, edge: Edge)

  /** The plan holds exactly the updates that the drifted edges the request selects need. */
  ghost predicate Plans(plan: Plan, digest: Digest, l: Lattice, edges: seq<(string, Edge)>, request: Request)
    requires Hashable(l) && forall i :: 0 <= i < |edges| ==> Live(l, edges[i].1)
  {
    && (forall i :: 0 <= i < |edges| ==> Covered(plan, digest, l, edges[i], request))
    && (forall key :: key in plan ==> Needed(digest, l, edges, request, key))
  }

  /** A selected edge's state, where it is one an update clears, puts its live hash in the plan. */
  ghost predicate Covered(plan: Plan, digest: Digest, l: Lattice, edge: (string, Edge), request: Request)
    requires Hashable(l) && Live(l, edge.1)
  {
    request.Selects(edge.1) && StateOf(digest, l, edge.1) in {STALE, UNRECONCILED} ==>
      && (edge.0, edge.1.targetRef) in plan
      && plan[(edge.0, edge.1.targetRef)] == TargetHash(digest, l, edge.1.targetId.value)
  }

  ghost predicate Needed(digest: Digest, l: Lattice, edges: seq<(string, Edge)>, request: Request,
                         key: (string, string))
    requires Hashable(l) && forall i :: 0 <= i < |edges| ==> Live(l, edges[i].1)
  {
    exists i :: 0 <= i < |edges| && edges[i].0 == key.0 && edges[i].1.targetRef == key.1
             && request.Selects(edges[i].1) && StateOf(digest, l, edges[i].1) in {STALE, UNRECONCILED}
  }

  /** No two edges share a source and a ref. */
  ghost predicate DistinctKeys(edges: seq<(string, Edge)>)
  {
    forall i, j :: 0 <= i < j < |edges| && edges[i].0 == edges[j].0 ==>
      edges[i].1.targetRef != edges[j].1.targetRef
  }

  lemma {:induction false} PlanNext(plan: Plan, digest: Digest, l: Lattice, edges: seq<(string, Edge)>, n: nat,
                                    request: Request)
    requires Hashable(l) && n < |edges| && (forall i :: 0 <= i < |edges| ==> Live(l, edges[i].1))
    requires DistinctKeys(edges) && Plans(plan, digest, l, edges[..n], request)
    ensures var (source, e) := edges[n];
      if request.Selects(e) && StateOf(digest, l, e) in {STALE, UNRECONCILED}
      then Plans(plan[(source, e.targetRef) := TargetHash(digest, l, e.targetId.value)], digest, l,
                 edges[..n + 1], request)
      else Plans(plan, digest, l, edges[..n + 1], request)
  {
    var (source, e) := edges[n];
    var drifted := request.Selects(e) && StateOf(digest, l, e) in {STALE, UNRECONCILED};
    var now := if drifted then plan[(source, e.targetRef) := TargetHash(digest, l, e.targetId.value)] else plan;
    var before, more := edges[..n], edges[..n + 1];
    forall i | 0 <= i < |more| ensures Covered(now, digest, l, more[i], request) {
      if i < n {
        assert before[i] == more[i];
        assert Covered(plan, digest, l, before[i], request);
      }
    }
    forall key | key in now ensures Needed(digest, l, more, request, key) {
      if key in plan {
        assert Needed(digest, l, before, request, key);
        var i :| 0 <= i < n && before[i].0 == key.0 && before[i].1.targetRef == key.1
              && request.Selects(before[i].1) && StateOf(digest, l, before[i].1) in {STALE, UNRECONCILED};
        assert more[i] == before[i];
      } else {
        assert more[n] == (source, e);
      }
    }
  }

  /** Each node's edges have different refs. */
  ghost predicate DistinctEdges(l: Lattice)
  {
    forall id, i, j :: id in l.nodesById && 0 <= i < j < |l.nodesById[id].derivesFrom| ==>
      l.nodesById[id].derivesFrom[i].targetRef != l.nodesById[id].derivesFrom[j].targetRef
  }

  predicate NoRepeats(ids: seq<string>)
  {
    forall i, j :: 0 <= i < j < |ids| ==> ids[i] != ids[j]
  }

  lemma {:induction false} KeysDistinct(l: Lattice, ids: seq<string>)
    requires DistinctEdges(l) && NoRepeats(ids) && forall i :: 0 <= i < |ids| ==> ids[i] in l.nodesById
    ensures DistinctKeys(EdgesOf(l, ids))
  {
    if ids != [] {
      var front, last := ids[..|ids| - 1], ids[|ids| - 1];
      KeysDistinct(l, front);
      var earlier := EdgesOf(l, front);
      forall i | 0 <= i < |earlier| ensures earlier[i].0 != last {
        EdgesOfAre(l, front, earlier[i].0, earlier[i].1);
        assert earlier[i] in earlier;
      }
    }
  }

  function Chosen(ids: seq<string>, request: Request): seq<string>
  {
    if request.downstream.Some? then [request.downstream.value] else ids
  }

  /** What a lattice offers the commands. */
  ghost predicate Ready(l: Lattice, ids: seq<string>)
  {
    && Hashable(l) && DistinctEdges(l) && NoRepeats(ids)
    && forall id :: id in ids <==> id in l.nodesById
  }

  /** What planning over some edges came to: a refusal names a selected edge that calls for it,
      and a plan comes only where none does. */
  ghost predicate Outcome(r: Planning, digest: Digest, l: Lattice, edges: seq<(string, Edge)>, request: Request)
    requires Hashable(l) && forall i :: 0 <= i < |edges| ==> Live(l, edges[i].1)
  {
    match r
    case UnknownDownstream => false
    case Planned(plan) =>
      && Plans(plan, digest, l, edges, request)
      && (forall i :: 0 <= i < |edges| ==> Acceptable(digest, l, edges[i].1, request))
      && (request.TargetsOneRef() ==> exists i :: 0 <= i < |edges| && request.Selects(edges[i].1))
    case NoSuchEdge =>
      request.TargetsOneRef() && forall i :: 0 <= i < |edges| ==> !request.Selects(edges[i].1)
    case BrokenRef(source, e) =>
      && request.TargetsOneRef() && request.Selects(e)
      && (source, e) in edges && Live(l, e) && StateOf(digest, l, e) == BROKEN
    case AmbiguousRef(source, e) =>
      request.Selects(e) && (source, e) in edges && Live(l, e) && StateOf(digest, l, e) == AMBIGUOUS
  }

  /** A selected edge is never ambiguous, nor broken where the request is for it alone. */
  ghost predicate Acceptable(digest: Digest, l: Lattice, e: Edge, request: Request)
    requires Hashable(l) && Live(l, e)
  {
    request.Selects(e) ==>
      && StateOf(digest, l, e) != AMBIGUOUS
      && (request.TargetsOneRef() ==> StateOf(digest, l, e) != BROKEN)
  }

  lemma {:induction false} EdgesLive(l: Lattice, ids: seq<string>)
    requires Hashable(l) && forall i :: 0 <= i < |ids| ==> ids[i] in l.nodesById
    ensures forall i :: 0 <= i < |EdgesOf(l, ids)| ==> Live(l, EdgesOf(l, ids)[i].1)
  {
    forall i | 0 <= i < |EdgesOf(l, ids)| ensures Live(l, EdgesOf(l, ids)[i].1) {
      EdgesOfAre(l, ids, EdgesOf(l, ids)[i].0, EdgesOf(l, ids)[i].1);
    }
  }

  /** Plan one edge's update if it needs one, or refuse because of it. */
  method PlanEdge(digest: Digest, l: Lattice, source: string, e: Edge, request: Request, plan: Plan,
                  cache: map<TargetId, string>)
    returns (refused: Option<Planning>, now: Plan, known: map<TargetId, string>)
    requires Hashable(l) && Live(l, e) && Agrees(cache, digest, l)
    ensures Agrees(known, digest, l)
    ensures refused.Some? <==> !Acceptable(digest, l, e, request)
    ensures refused.Some? ==>
      refused.value == if StateOf(digest, l, e) == BROKEN then BrokenRef(source, e) else AmbiguousRef(source, e)
    ensures now == if request.Selects(e) && StateOf(digest, l, e) in {STALE, UNRECONCILED}
                   then plan[(source, e.targetRef) := TargetHash(digest, l, e.targetId.value)] else plan
  {
    refused, now, known := None, plan, cache;
    if !request.Selects(e) { return; }
    if e.targetId.None? {
      if request.TargetsOneRef() { refused := Some(BrokenRef(source, e)); }
    } else if e.targetId.value in l.collisions {
      refused := Some(AmbiguousRef(source, e));
    } else {
      var newSeen;
      newSeen, known := CachedTargetHash(digest, l, e.targetId.value, cache);
      if e.seen != Some(newSeen) {
        now := plan[(source, e.targetRef) := newSeen];
      }
    }
  }

  /** Plan the updates that clear the drift of the selected edges, or refuse. */
  method PlanEdges(digest: Digest, l: Lattice, edges: seq<(string, Edge)>, request: Request) returns (r: Planning)
    requires Hashable(l) && DistinctKeys(edges) && forall i :: 0 <= i < |edges| ==> Live(l, edges[i].1)
    ensures Outcome(r, digest, l, edges, request)
  {
    var plan: Plan, cache: map<TargetId, string>, refMatched := map[], map[], false;
    for i := 0 to |edges|
      invariant Agrees(cache, digest, l) && PlannedTo(plan, digest, l, edges, i, request)
      invariant refMatched == AnySelected(edges, i, request)
    {
      ghost var before := plan;
      var refused;
      refused, plan, cache := PlanEdge(digest, l, edges[i].0, edges[i].1, request, plan, cache);
      if refused.Some? {
        Refuses(digest, l, edges, i, request);
        return refused.value;
      }
      PlannedNext(before, plan, digest, l, edges, i, request);
      OneMoreSelected(edges, i, request);
      refMatched := refMatched || request.Selects(edges[i].1);
    }
    r := if request.TargetsOneRef() && !refMatched then NoSuchEdge else Planned(plan);
    PlannedAll(plan, digest, l, edges, request, refMatched);
  }

  ghost predicate AnySelected(edges: seq<(string, Edge)>, n: nat, request: Request)
    requires n <= |edges|
  {
    exists j :: 0 <= j < n && request.Selects(edges[j].1)
  }

  lemma OneMoreSelected(edges: seq<(string, Edge)>, n: nat, request: Request)
    requires n < |edges|
    ensures AnySelected(edges, n + 1, request) == (AnySelected(edges, n, request) || request.Selects(edges[n].1))
  {
  }

  /** The plan of the first `n` edges, none of which refuses the request. */
  ghost predicate PlannedTo(plan: Plan, digest: Digest, l: Lattice, edges: seq<(string, Edge)>, n: nat,
                            request: Request)
    requires Hashable(l) && n <= |edges| && forall i :: 0 <= i < |edges| ==> Live(l, edges[i].1)
  {
    && Plans(plan, digest, l, edges[..n], request)
    && forall j :: 0 <= j < n ==> Acceptable(digest, l, edges[j].1, request)
  }

  lemma PlannedNext(plan: Plan, now: Plan, digest: Digest, l: Lattice, edges: seq<(string, Edge)>, n: nat,
                    request: Request)
    requires Hashable(l) && (forall i :: 0 <= i < |edges| ==> Live(l, edges[i].1)) && DistinctKeys(edges)
    requires n < |edges| && PlannedTo(plan, digest, l, edges, n, request)
    requires Acceptable(digest, l, edges[n].1, request)
    requires var (source, e) := edges[n];
      now == if request.Selects(e) && StateOf(digest, l, e) in {STALE, UNRECONCILED}
             then plan[(source, e.targetRef) := TargetHash(digest, l, e.targetId.value)] else plan
    ensures PlannedTo(now, digest, l, edges, n + 1, request)
  {
    PlanNext(plan, digest, l, edges, n, request);
  }

  lemma PlannedAll(plan: Plan, digest: Digest, l: Lattice, edges: seq<(string, Edge)>, request: Request, matched: bool)
    requires Hashable(l) && forall i :: 0 <= i < |edges| ==> Live(l, edges[i].1)
    requires PlannedTo(plan, digest, l, edges, |edges|, request)
    requires matched == AnySelected(edges, |edges|, request)
    ensures Outcome(if request.TargetsOneRef() && !matched then NoSuchEdge else Planned(plan), digest, l, edges,
                    request)
  {
    assert edges[..|edges|] == edges;
  }

  lemma Refuses(digest: Digest, l: Lattice, edges: seq<(string, Edge)>, i: nat, request: Request)
    requires Hashable(l) && (forall k :: 0 <= k < |edges| ==> Live(l, edges[k].1)) && i < |edges|
    requires !Acceptable(digest, l, edges[i].1, request)
    ensures var (source, e) := edges[i];
      Outcome(if StateOf(digest, l, e) == BROKEN then BrokenRef(source, e) else AmbiguousRef(source, e),
              digest, l, edges, request)
  {
    assert edges[i] in edges;
  }

  /** Reconcile one node or every node. */
  method Reconcile(digest: Digest, l: Lattice, ids: seq<string>, request: Request) returns (r: Planning)
    requires Ready(l, ids)
    ensures r.UnknownDownstream? <==> request.downstream.Some? && request.downstream.value !in l.nodesById
    ensures !r.UnknownDownstream? ==> Concludes(r, digest, l, Chosen(ids, request), request)
    ensures Answers(r, digest, l, request)
  {
    if request.downstream.Some? && request.downstream.value !in l.nodesById { return UnknownDownstream; }
    var chosen := Chosen(ids, request);
    forall i | 0 <= i < |chosen| ensures chosen[i] in l.nodesById {
      assert chosen == ids ==> chosen[i] in ids;
    }
    EdgesLive(l, chosen);
    KeysDistinct(l, chosen);
    r := PlanEdges(digest, l, EdgesOf(l, chosen), request);
    ConcludesAnswers(r, digest, l, ids, request);
  }

  /** The request is about this edge of this node. */
  ghost predicate Asked(request: Request, id: string, e: Edge)
  {
    && (request.downstream.Some? ==> id == request.downstream.value)
    && (request.ref.Some? ==>
          ParseRef(request.ref.value) == if e.targetId.Some? then e.targetId.value else ParseRef(e.targetRef))
  }

  /** The plan holds the live hash of each edge asked about that is STALE or UNRECONCILED, and no more. */
  ghost predicate ExactPlan(plan: Plan, digest: Digest, l: Lattice, request: Request)
  {
    && Hashable(l)
    && (forall id, e :: EdgeOf(l, id, e) ==> PlannedExactly(plan, digest, l, request, id, e))
    && (forall key :: key in plan ==>
          exists e :: EdgeOf(l, key.0, e) && Asked(request, key.0, e) && e.targetRef == key.1)
  }

  ghost predicate PlannedExactly(plan: Plan, digest: Digest, l: Lattice, request: Request, id: string, e: Edge)
    requires Hashable(l)
  {
    && Live(l, e)
    && ((id, e.targetRef) in plan <==> Asked(request, id, e) && StateOf(digest, l, e) in {STALE, UNRECONCILED})
    && ((id, e.targetRef) in plan ==> plan[(id, e.targetRef)] == TargetHash(digest, l, e.targetId.value))
  }

  /** No edge asked about stands in the way of a plan. */
  ghost predicate Unobstructed(digest: Digest, l: Lattice, request: Request)
    requires Hashable(l)
  {
    forall id, e :: EdgeOf(l, id, e) && Asked(request, id, e) ==>
      && Live(l, e) && StateOf(digest, l, e) != AMBIGUOUS
      && (request.downstream.Some? && request.ref.Some? ==> StateOf(digest, l, e) != BROKEN)
  }

  /** What a result of planning means: the exact plan, where nothing asked about stands in its way, or
      what does. One edge asked about by name has to be there and to have a target. */
  ghost predicate Answers(r: Planning, digest: Digest, l: Lattice, request: Request)
    requires Hashable(l)
  {
    match r
    case UnknownDownstream => request.downstream.Some? && request.downstream.value !in l.nodesById
    case Planned(plan) =>
      && ExactPlan(plan, digest, l, request) && Unobstructed(digest, l, request)
      && (request.downstream.Some? && request.ref.Some? ==> exists id, e :: EdgeOf(l, id, e) && Asked(request, id, e))
    case NoSuchEdge =>
      && request.downstream.Some? && request.ref.Some?
      && forall id, e :: EdgeOf(l, id, e) ==> !Asked(request, id, e)
    case BrokenRef(source, e) =>
      && request.downstream.Some? && request.ref.Some? && EdgeOf(l, source, e) && Asked(request, source, e)
      && e.targetId.None?
    case AmbiguousRef(source, e) =>
      && EdgeOf(l, source, e) && Asked(request, source, e)
      && e.targetId.Some? && e.targetId.value in l.collisions
  }

  /** The edges planned over are those of the nodes chosen, and those selected the ones asked about. */
  lemma {:induction false} AskedIsSelected(l: Lattice, ids: seq<string>, request: Request, id: string, e: Edge)
    requires Ready(l, ids) && (request.downstream.Some? ==> request.downstream.value in l.nodesById)
    ensures forall i :: 0 <= i < |Chosen(ids, request)| ==> Chosen(ids, request)[i] in l.nodesById
    ensures (id, e) in EdgesOf(l, Chosen(ids, request)) && request.Selects(e) <==>
      EdgeOf(l, id, e) && Asked(request, id, e)
    ensures EdgeOf(l, id, e) && Asked(request, id, e) ==> request.Selects(e)
  {
    var chosen := Chosen(ids, request);
    forall i | 0 <= i < |chosen| ensures chosen[i] in l.nodesById {
      assert chosen == ids ==> chosen[i] in ids;
    }
    EdgesOfAre(l, chosen, id, e);
  }

  lemma {:induction false} PlanAtEdge(digest: Digest, l: Lattice, ids: seq<string>, plan: Plan, request: Request,
                                      id: string, e: Edge)
    requires Ready(l, ids) && (request.downstream.Some? ==> request.downstream.value in l.nodesById)
    requires Concludes(Planned(plan), digest, l, Chosen(ids, request), request) && EdgeOf(l, id, e)
    ensures PlannedExactly(plan, digest, l, request, id, e)
    ensures Asked(request, id, e) ==> Acceptable(digest, l, e, request) && request.Selects(e)
  {
    var edges, key := EdgesOf(l, Chosen(ids, request)), (id, e.targetRef);
    AskedIsSelected(l, ids, request, id, e);
    if Asked(request, id, e) {
      var i :| 0 <= i < |edges| && edges[i] == (id, e);
      assert Covered(plan, digest, l, edges[i], request) && Acceptable(digest, l, edges[i].1, request);
    }
    if key in plan {
      assert Needed(digest, l, edges, request, key);
      var other := NeededEdge(digest, l, ids, request, key);
      SameRefSameEdge(l, id, e, other);
    }
  }

  /** What calls for an update is an edge asked about that has drifted. */
  lemma {:induction false} NeededEdge(digest: Digest, l: Lattice, ids: seq<string>, request: Request,
                                      key: (string, string)) returns (e: Edge)
    requires Ready(l, ids) && (request.downstream.Some? ==> request.downstream.value in l.nodesById)
    requires forall i :: 0 <= i < |Chosen(ids, request)| ==> Chosen(ids, request)[i] in l.nodesById
    requires var edges := EdgesOf(l, Chosen(ids, request));
      (forall i :: 0 <= i < |edges| ==> Live(l, edges[i].1)) && Needed(digest, l, edges, request, key)
    ensures EdgeOf(l, key.0, e) && Asked(request, key.0, e) && e.targetRef == key.1
    ensures Live(l, e) && StateOf(digest, l, e) in {STALE, UNRECONCILED}
  {
    var edges := EdgesOf(l, Chosen(ids, request));
    var j :| 0 <= j < |edges| && edges[j].0 == key.0 && edges[j].1.targetRef == key.1
          && request.Selects(edges[j].1) && StateOf(digest, l, edges[j].1) in {STALE, UNRECONCILED};
    e := edges[j].1;
    assert edges[j] in edges && edges[j] == (key.0, e);
    AskedIsSelected(l, ids, request, key.0, e);
  }

  lemma {:induction false} PlanIsExact(digest: Digest, l: Lattice, ids: seq<string>, plan: Plan, request: Request)
    requires Ready(l, ids) && (request.downstream.Some? ==> request.downstream.value in l.nodesById)
    requires Concludes(Planned(plan), digest, l, Chosen(ids, request), request)
    ensures ExactPlan(plan, digest, l, request) && Unobstructed(digest, l, request)
  {
    var edges := EdgesOf(l, Chosen(ids, request));
    forall id, e | EdgeOf(l, id, e)
      ensures PlannedExactly(plan, digest, l, request, id, e)
      ensures Asked(request, id, e) ==> Acceptable(digest, l, e, request) && request.Selects(e)
    {
      PlanAtEdge(digest, l, ids, plan, request, id, e);
    }
    forall key | key in plan
      ensures exists e :: EdgeOf(l, key.0, e) && Asked(request, key.0, e) && e.targetRef == key.1
    {
      assert Needed(digest, l, edges, request, key);
      var e := NeededEdge(digest, l, ids, request, key);
    }
  }

  lemma {:induction false} SomeAsked(l: Lattice, ids: seq<string>, request: Request)
    requires Ready(l, ids) && (request.downstream.Some? ==> request.downstream.value in l.nodesById)
    requires forall i :: 0 <= i < |Chosen(ids, request)| ==> Chosen(ids, request)[i] in l.nodesById
    requires var edges := EdgesOf(l, Chosen(ids, request));
      exists i :: 0 <= i < |edges| && request.Selects(edges[i].1)
    ensures exists id, e :: EdgeOf(l, id, e) && Asked(request, id, e)
  {
    var edges := EdgesOf(l, Chosen(ids, request));
    var i :| 0 <= i < |edges| && request.Selects(edges[i].1);
    assert edges[i] in edges && edges[i] == (edges[i].0, edges[i].1);
    AskedIsSelected(l, ids, request, edges[i].0, edges[i].1);
  }

  lemma {:induction false} ConcludesAnswers(r: Planning, digest: Digest, l: Lattice, ids: seq<string>,
                                            request: Request)
    requires Ready(l, ids) && (request.downstream.Some? ==> request.downstream.value in l.nodesById)
    requires Concludes(r, digest, l, Chosen(ids, request), request)
    ensures Answers(r, digest, l, request)
  {
    match r
    case Planned(plan) =>
      PlanIsExact(digest, l, ids, plan, request);
      if request.downstream.Some? && request.ref.Some? {
        SomeAsked(l, ids, request);
      }
    case NoSuchEdge =>
      forall id, e | EdgeOf(l, id, e) ensures !Asked(request, id, e) {
        AskedIsSelected(l, ids, request, id, e);
      }
    case BrokenRef(source, e) =>
      AskedIsSelected(l, ids, request, source, e);
    case AmbiguousRef(source, e) =>
      AskedIsSelected(l, ids, request, source, e);
    case _ =>
  }

  lemma {:induction false} SameRefSameEdge(l: Lattice, id: string, a: Edge, b: Edge)
    requires DistinctEdges(l) && id in l.nodesById && a in l.nodesById[id].derivesFrom
    requires b in l.nodesById[id].derivesFrom && a.targetRef == b.targetRef
    ensures a == b
  {
    var edges := l.nodesById[id].derivesFrom;
    var i :| 0 <= i < |edges| && edges[i] == a;
    var j :| 0 <= j < |edges| && edges[j] == b;
    assert forall p, q :: 0 <= p < q < |edges| ==> edges[p].targetRef != edges[q].targetRef;
    assert i == j;
  }

  ghost predicate Concludes(r: Planning, digest: Digest, l: Lattice, ids: seq<string>, request: Request)
  {
    && Hashable(l) && (forall i :: 0 <= i < |ids| ==> ids[i] in l.nodesById)
    && (forall i :: 0 <= i < |EdgesOf(l, ids)| ==> Live(l, EdgesOf(l, ids)[i].1))
    && Outcome(r, digest, l, EdgesOf(l, ids), request)
  }

  // ---- applying a plan -----------------------------------------------------------------

  /** Every entry the plan names takes its planned hash. */
  function Updated(d: Doc, plan: Plan): Doc
  {
    d.(derivesFrom := seq(|d.derivesFrom|, k requires 0 <= k < |d.derivesFrom| =>
      var raw := d.derivesFrom[k];
      if (d.id, raw.ref) in plan then RawEdge(raw.ref, Some(plan[(d.id, raw.ref)])) else raw))
  }

  function Applied(docs: seq<Doc>, plan: Plan): (r: seq<Doc>)
    ensures |r| == |docs|
  {
    seq(|docs|, i requires 0 <= i < |docs| => Updated(docs[i], plan))
  }

  /** Locked hashes are no part of what is registered or of who owns a path. */
  lemma {:induction false} AppliedSameShape(docs: seq<Doc>, plan: Plan)
    ensures AllRegistrations(Applied(docs, plan)) == AllRegistrations(docs)
    ensures Owners(Applied(docs, plan)) == Owners(docs)
  {
    var now := Applied(docs, plan);
    if docs != [] {
      AppliedSameShape(docs[..|docs| - 1], plan);
      assert now[..|now| - 1] == Applied(docs[..|docs| - 1], plan);
      SameRegistrations(docs[|docs| - 1], plan);
    }
  }

  lemma {:induction false} SameRegistrations(d: Doc, plan: Plan)
    ensures RegistrationsOf(Updated(d, plan)) == RegistrationsOf(d)
  {
  }

  lemma {:induction false} ConsistentIsHashable(l: Lattice, docs: seq<Doc>)
    requires Consistent(l, docs)
    ensures Hashable(l) && DistinctEdges(l)
  {
    forall t | t in l.index ensures l.index[t].path in l.fileIdByPath {
      var d := IndexOrigin(Registry(l.index, l.collisions, l.ancestorContext), docs, t);
      PathKnown(l, docs, d);
    }
    forall id | id in l.nodesById
      ensures forall e :: e in l.nodesById[id].derivesFrom && e.targetId.Some? ==> e.targetId.value in l.index
      ensures forall i, j :: 0 <= i < j < |l.nodesById[id].derivesFrom| ==>
        l.nodesById[id].derivesFrom[i].targetRef != l.nodesById[id].derivesFrom[j].targetRef
    {
      var d :| d in docs && d.id == id;
      assert NodeOf(l.nodesById, d, l.index.Keys);
      EdgesWellFormed(d.derivesFrom, l.index.Keys, l.nodesById[id].derivesFrom);
    }
  }

  /** Two lattices built before and after a plan is applied. */
  ghost predicate BeforeAndAfter(l: Lattice, now: Lattice, docs: seq<Doc>, plan: Plan)
  {
    && now.index == l.index && now.collisions == l.collisions && now.ancestorContext == l.ancestorContext
    && now.fileIdByPath == l.fileIdByPath && Hashable(l) && Hashable(now)
    && NodesOf(l.nodesById, docs, l.index.Keys) && NodesOf(now.nodesById, Applied(docs, plan), l.index.Keys)
  }

  lemma {:induction false} RebuiltAfter(l: Lattice, now: Lattice, docs: seq<Doc>, plan: Plan)
    requires Consistent(l, docs) && Consistent(now, Applied(docs, plan))
    ensures BeforeAndAfter(l, now, docs, plan)
  {
    AppliedSameShape(docs, plan);
    SameRegistry(Registry(l.index, l.collisions, l.ancestorContext),
                 Registry(now.index, now.collisions, now.ancestorContext), AllRegistrations(docs));
    ConsistentIsHashable(l, docs);
    ConsistentIsHashable(now, Applied(docs, plan));
  }

  lemma {:induction false} SameBody(l: Lattice, now: Lattice, docs: seq<Doc>, plan: Plan, id: string)
    requires BeforeAndAfter(l, now, docs, plan) && id in l.nodesById
    ensures id in now.nodesById && now.nodesById[id].body == l.nodesById[id].body
  {
    var d :| d in docs && d.id == id;
    NodeHolds(l.nodesById, docs, l.index.Keys, d);
    var i :| 0 <= i < |docs| && docs[i] == d;
    assert Applied(docs, plan)[i] == Updated(d, plan);
    NodeHolds(now.nodesById, Applied(docs, plan), now.index.Keys, Updated(d, plan));
  }

  /** No live hash depends on a locked one. */
  lemma {:induction false} SameHash(digest: Digest, l: Lattice, now: Lattice, docs: seq<Doc>, plan: Plan, t: TargetId)
    requires BeforeAndAfter(l, now, docs, plan) && t in l.index
    ensures t in now.index && TargetHash(digest, now, t) == TargetHash(digest, l, t)
  {
    SameBody(l, now, docs, plan, l.fileIdByPath[l.index[t].path]);
  }

  lemma {:induction false} EdgesWellFormed(raws: seq<RawEdge>, ids: set<TargetId>, edges: seq<Edge>)
    requires EdgesFor(raws, ids, edges)
    ensures forall e :: e in edges && e.targetId.Some? ==> e.targetId.value in ids
    ensures forall i, j :: 0 <= i < j < |edges| ==> edges[i].targetRef != edges[j].targetRef
  {
    forall i | 0 <= i < |edges| ensures edges[i].targetId.Some? ==> edges[i].targetId.value in ids {
      EdgeFromLast(raws, ids, edges, i);
      var k := LastEntry(raws, ids, edges[i]);
    }
    forall i, j | 0 <= i < j < |edges| ensures edges[i].targetRef != edges[j].targetRef {
      EdgesDistinct(raws, ids, edges, i, j);
    }
  }

  lemma {:induction false} DocAfter(l: Lattice, now: Lattice, docs: seq<Doc>, plan: Plan, id: string) returns (d: Doc)
    requires BeforeAndAfter(l, now, docs, plan) && id in now.nodesById
    ensures d.id == id && id in l.nodesById
    ensures EdgesFor(d.derivesFrom, l.index.Keys, l.nodesById[id].derivesFrom)
    ensures EdgesFor(Updated(d, plan).derivesFrom, l.index.Keys, now.nodesById[id].derivesFrom)
  {
    var next :| next in Applied(docs, plan) && next.id == id;
    var i :| 0 <= i < |docs| && Applied(docs, plan)[i] == next;
    d := docs[i];
    NodeEdges(l.nodesById, docs, l.index.Keys, d);
    NodeEdges(now.nodesById, Applied(docs, plan), l.index.Keys, next);
  }

  /** Each edge after the plan is an edge from before, with its planned hash if it has one. */
  lemma {:induction false} EdgeBefore(d: Doc, plan: Plan, ids: set<TargetId>, edges: seq<Edge>, now: seq<Edge>, e: Edge)
    returns (was: Edge)
    requires EdgesFor(d.derivesFrom, ids, edges) && EdgesFor(Updated(d, plan).derivesFrom, ids, now) && e in now
    ensures was in edges
    ensures e == was.(seen := if (d.id, was.targetRef) in plan then Some(plan[(d.id, was.targetRef)]) else was.seen)
  {
    var k := UpdatedEntry(d, plan, ids, edges, now, e);
    was := Resolve(d.derivesFrom[k].ref, d.derivesFrom[k].seen, ids);
    SeenUpdated(d, plan, ids, k);
  }

  lemma {:induction false} NodeEdges(nodes: map<string, Node>, docs: seq<Doc>, ids: set<TargetId>, d: Doc)
    requires NodesOf(nodes, docs, ids) && d in docs
    ensures d.id in nodes && EdgesFor(d.derivesFrom, ids, nodes[d.id].derivesFrom)
  {
    assert NodeOf(nodes, d, ids);
  }

  lemma {:induction false} SameTargets(d: Doc, plan: Plan)
    ensures TargetsOf(Updated(d, plan).derivesFrom) == TargetsOf(d.derivesFrom)
  {
    var raws, next := d.derivesFrom, Updated(d, plan).derivesFrom;
    forall k | 0 <= k < |raws| ensures next[k].ref == raws[k].ref {
    }
  }

  lemma {:induction false} UpdatedEntry(d: Doc, plan: Plan, ids: set<TargetId>, edges: seq<Edge>,
                                        now: seq<Edge>, e: Edge)
    returns (k: nat)
    requires EdgesFor(d.derivesFrom, ids, edges) && EdgesFor(Updated(d, plan).derivesFrom, ids, now) && e in now
    ensures k < |d.derivesFrom| && Resolve(d.derivesFrom[k].ref, d.derivesFrom[k].seen, ids) in edges
    ensures e == Resolve(Updated(d, plan).derivesFrom[k].ref, Updated(d, plan).derivesFrom[k].seen, ids)
  {
    var next := Updated(d, plan).derivesFrom;
    var i :| 0 <= i < |now| && now[i] == e;
    EdgeFromLast(next, ids, now, i);
    k := LastEntry(next, ids, e);
    SameTargets(d, plan);
    LastEntryIsEdge(d.derivesFrom, ids, edges, k);
  }

  lemma {:induction false} SeenUpdated(d: Doc, plan: Plan, ids: set<TargetId>, k: nat)
    requires k < |d.derivesFrom|
    ensures var next, was := Updated(d, plan).derivesFrom[k], Resolve(d.derivesFrom[k].ref, d.derivesFrom[k].seen, ids);
      Resolve(next.ref, next.seen, ids)
      == was.(seen := if (d.id, was.targetRef) in plan then Some(plan[(d.id, was.targetRef)]) else was.seen)
  {
  }

  // ---- one pass converges --------------------------------------------------------------

  /** An edge's state once its own update, if the plan has one, is applied. */
  lemma {:induction false} StateAfter(digest: Digest, l: Lattice, request: Request, plan: Plan, id: string, was: Edge)
    requires Hashable(l) && Answers(Planned(plan), digest, l, request) && EdgeOf(l, id, was)
    ensures var e := was.(seen := if (id, was.targetRef) in plan then Some(plan[(id, was.targetRef)]) else was.seen);
      && Live(l, e) && Live(l, was)
      && (Asked(request, id, was) ==> StateOf(digest, l, was) != AMBIGUOUS && StateOf(digest, l, e) in {OK, BROKEN})
      && (!Asked(request, id, was) ==> e == was)
  {
    assert PlannedExactly(plan, digest, l, request, id, was);
  }

  lemma {:induction false} SameState(digest: Digest, l: Lattice, now: Lattice, docs: seq<Doc>, plan: Plan, e: Edge)
    requires BeforeAndAfter(l, now, docs, plan) && Live(l, e)
    ensures Live(now, e) && StateOf(digest, now, e) == StateOf(digest, l, e)
  {
    if e.targetId.Some? {
      SameHash(digest, l, now, docs, plan, e.targetId.value);
    }
  }

  lemma {:induction false} Was(l: Lattice, now: Lattice, docs: seq<Doc>, plan: Plan, id: string, e: Edge)
    returns (was: Edge)
    requires BeforeAndAfter(l, now, docs, plan) && id in now.nodesById && e in now.nodesById[id].derivesFrom
    ensures id in l.nodesById && was in l.nodesById[id].derivesFrom && Live(l, e)
    ensures e == was.(seen := if (id, was.targetRef) in plan then Some(plan[(id, was.targetRef)]) else was.seen)
  {
    var d := DocAfter(l, now, docs, plan, id);
    was := EdgeBefore(d, plan, l.index.Keys, l.nodesById[id].derivesFrom, now.nodesById[id].derivesFrom, e);
  }

  /** One pass converges: once a plan is applied, every edge the request asks about is OK or
      BROKEN, and every other edge is in the state it was in. */
  lemma {:induction false} OnePassConverges(digest: Digest, l: Lattice, now: Lattice, docs: seq<Doc>,
                                            request: Request, plan: Plan, id: string, e: Edge)
    returns (was: Edge)
    requires BeforeAndAfter(l, now, docs, plan) && Answers(Planned(plan), digest, l, request)
    requires id in now.nodesById && e in now.nodesById[id].derivesFrom
    ensures id in l.nodesById && was in l.nodesById[id].derivesFrom && was.targetRef == e.targetRef
    ensures was.targetId == e.targetId
    ensures Live(now, e) && Live(l, was)
    ensures if Asked(request, id, was)
            then StateOf(digest, now, e) in {OK, BROKEN}
            else e == was && StateOf(digest, now, e) == StateOf(digest, l, was)
  {
    was := Was(l, now, docs, plan, id, e);
    StateAfter(digest, l, request, plan, id, was);
    SameState(digest, l, now, docs, plan, e);
  }

  /** Every edge is OK or has no target. */
  ghost predicate Settled(digest: Digest, l: Lattice)
    requires Hashable(l)
  {
    forall id, e :: id in l.nodesById && e in l.nodesById[id].derivesFrom ==>
      Live(l, e) && StateOf(digest, l, e) in {OK, BROKEN}
  }

  /** Reconciling every edge of every node settles the lattice. */
  lemma {:induction false} ReconcileAllSettles(digest: Digest, l: Lattice, now: Lattice, docs: seq<Doc>, plan: Plan)
    requires BeforeAndAfter(l, now, docs, plan) && Answers(Planned(plan), digest, l, EVERYTHING)
    ensures Settled(digest, now)
  {
    forall id, e | id in now.nodesById && e in now.nodesById[id].derivesFrom
      ensures Live(now, e) && StateOf(digest, now, e) in {OK, BROKEN}
    {
      var was := OnePassConverges(digest, l, now, docs, EVERYTHING, plan, id, e);
    }
  }

  lemma {:induction false} SettledIsClear(digest: Digest, l: Lattice, id: string, e: Edge)
    requires Hashable(l) && Settled(digest, l) && EdgeOf(l, id, e)
    ensures e.targetId.Some? ==> e.targetId.value !in l.collisions
  {
    assert Live(l, e) && StateOf(digest, l, e) in {OK, BROKEN};
  }

  /** A settled lattice is planned to nothing, and refused nothing. */
  lemma {:induction false} SettledPlansNothing(digest: Digest, l: Lattice, r: Planning)
    requires Hashable(l) && Settled(digest, l) && Answers(r, digest, l, EVERYTHING)
    ensures r == Planned(map[])
  {
    match r
    case Planned(plan) =>
      forall id, e | EdgeOf(l, id, e) ensures (id, e.targetRef) !in plan {
        assert PlannedExactly(plan, digest, l, EVERYTHING, id, e);
      }
      assert forall key :: key in plan ==> key == (key.0, key.1);
    case AmbiguousRef(source, e) =>
      SettledIsClear(digest, l, source, e);
    case _ =>
  }

  // ---- the whole pass ------------------------------------------------------------------

  /** The node ids, each once. */
  method NodeIds(l: Lattice) returns (ids: seq<string>)
    ensures NoRepeats(ids) && forall id :: id in ids <==> id in l.nodesById
  {
    ids := [];
    var todo := l.nodesById.Keys;
    while todo != {}
      invariant todo <= l.nodesById.Keys && NoRepeats(ids)
      invariant forall id :: id in ids <==> id in l.nodesById && id !in todo
      decreases todo
    {
      var id :| id in todo;
      ids := ids + [id];
      todo := todo - {id};
    }
  }

  datatype PassResult =
    | Cleared(plan: Plan, again: Planning, statuses: seq<EdgeStatus>)
    | Refused(planning: Planning)
    | NotBuilt(target: TargetId)

  /** Some edge's target shares its id with another heading. */
  ghost predicate HasAmbiguous(l: Lattice)
  {
    exists id, e :: EdgeOf(l, id, e) && e.targetId.Some? && e.targetId.value in l.collisions
  }

  /** One status to an edge of the lattice, in order, each what its edge's state means. */
  ghost predicate ExactStatuses(statuses: seq<EdgeStatus>, digest: Digest, l: Lattice, ids: seq<string>)
  {
    && Ready(l, ids) && |statuses| == |EdgesOf(l, ids)|
    && forall i :: 0 <= i < |statuses| ==>
         && Live(l, EdgesOf(l, ids)[i].1)
         && StatusFor(digest, l, EdgesOf(l, ids)[i].0, EdgesOf(l, ids)[i].1, statuses[i])
  }

  // ---- the pass, read off the documents --------------------------------------------------

  /** Some entry's ref names a section whose anchor collides. */
  ghost predicate SomeAmbiguous(docs: seq<Doc>)
  {
    exists d, k :: d in docs && 0 <= k < |d.derivesFrom| && NamesCollision(docs, d.derivesFrom[k].ref)
  }

  ghost predicate NamesCollision(docs: seq<Doc>, ref: string)
  {
    exists c, k :: c in docs && 0 <= k < |c.sections| && c.sections[k].collision.Some?
                && ParseRef(ref) == TargetId(c.id, Some(c.sections[k].anchor))
  }

  /** The last document at a path. */
  ghost predicate LastAt(docs: seq<Doc>, o: Doc, path: string)
  {
    o.path == path && exists i :: 0 <= i < |docs| && docs[i] == o && forall j :: i < j < |docs| ==> docs[j].path != path
  }

  /** `h` is the hash of what the target covers of the body at its path: all of it, or a section's span
      under that section's chain. */
  ghost predicate HashIs(digest: Digest, docs: seq<Doc>, t: TargetId, h: string)
  {
    exists c, o :: c in docs && LastAt(docs, o, c.path) && HashIn(digest, c, o.body, t, h)
  }

  ghost predicate HashIn(digest: Digest, c: Doc, body: string, t: TargetId, h: string)
  {
    || (t == TargetId(c.id, None) && h == digest(body, Location(c.path, true, Span(1, c.totalLines)), []))
    || exists k :: 0 <= k < |c.sections| && t == TargetId(c.id, Some(c.sections[k].anchor))
         && h == digest(body, Location(c.path, false, c.sections[k].span), c.sections[k].context)
  }

  /** An entry is planned exactly if it names something whose hash it is not locked at. */
  ghost predicate EntryPlanned(digest: Digest, docs: seq<Doc>, plan: Plan, d: Doc, k: nat)
  {
    LastNaming(d.derivesFrom, k) ==>
      var raw := d.derivesFrom[k];
      if Names(docs, ParseRef(raw.ref)) then
        exists h :: HashIs(digest, docs, ParseRef(raw.ref), h)
          && ((d.id, raw.ref) in plan <==> raw.seen != Some(h))
          && ((d.id, raw.ref) in plan ==> plan[(d.id, raw.ref)] == h)
      else (d.id, raw.ref) !in plan
  }

  /** Some entry that gives an edge has this source and ref. */
  ghost predicate KeyGiven(docs: seq<Doc>, key: (string, string))
  {
    exists d, k: nat :: d in docs && LastNaming(d.derivesFrom, k) && key == (d.id, d.derivesFrom[k].ref)
  }

  /** The plan for some documents: what each entry that gives an edge needs, and nothing else. */
  ghost predicate PlanOf(digest: Digest, docs: seq<Doc>, plan: Plan)
  {
    && (forall d, k: nat {:trigger EntryPlanned(digest, docs, plan, d, k)} :: d in docs ==>
          EntryPlanned(digest, docs, plan, d, k))
    && (forall key {:trigger KeyGiven(docs, key)} :: key in plan ==> KeyGiven(docs, key))
  }

  /** The status of an entry's edge once everything is reconciled. */
  ghost predicate EntrySettled(docs: seq<Doc>, d: Doc, raw: RawEdge, status: EdgeStatus)
  {
    && status.sourceId == d.id && status.targetRef == raw.ref
    && status.state == if Names(docs, ParseRef(raw.ref)) then OK else BROKEN
  }

  ghost predicate EntryHasStatus(docs: seq<Doc>, statuses: seq<EdgeStatus>, d: Doc, k: nat)
  {
    LastNaming(d.derivesFrom, k) ==> exists s :: s in statuses && EntrySettled(docs, d, d.derivesFrom[k], s)
  }

  ghost predicate StatusGiven(docs: seq<Doc>, s: EdgeStatus)
  {
    exists d, k: nat :: d in docs && LastNaming(d.derivesFrom, k) && EntrySettled(docs, d, d.derivesFrom[k], s)
  }

  /** One status to each entry that gives an edge. */
  ghost predicate StatusesOf(docs: seq<Doc>, statuses: seq<EdgeStatus>)
  {
    && (forall d, k: nat {:trigger EntryHasStatus(docs, statuses, d, k)} :: d in docs ==>
          EntryHasStatus(docs, statuses, d, k))
    && (forall s {:trigger StatusGiven(docs, s)} :: s in statuses ==> StatusGiven(docs, s))
    && (forall i, j :: 0 <= i < j < |statuses| ==>
          (statuses[i].sourceId, statuses[i].targetRef) != (statuses[j].sourceId, statuses[j].targetRef))
  }

  lemma {:induction false} OwnerIsLast(docs: seq<Doc>, path: string) returns (o: Doc)
    requires path in Owners(docs)
    ensures LastAt(docs, o, path) && o in docs && o.id == Owners(docs)[path]
  {
    var front, last := docs[..|docs| - 1], docs[|docs| - 1];
    if last.path == path {
      o := last;
    } else {
      o := OwnerIsLast(front, path);
      var i :| 0 <= i < |front| && front[i] == o && forall j :: i < j < |front| ==> front[j].path != path;
      assert docs[i] == o && forall j :: i < j < |docs| ==> docs[j].path != path;
    }
  }

  /** The live hash is the one the documents determine. */
  lemma {:induction false} HashFromDocs(digest: Digest, l: Lattice, docs: seq<Doc>, t: TargetId)
    requires Records(l, docs) && l.fileIdByPath == Owners(docs) && Hashable(l) && t in l.index
    ensures HashIs(digest, docs, t, TargetHash(digest, l, t))
  {
    assert Names(docs, t);
    var c :| c in docs && NamedBy(c, t);
    assert RecordsFile(l, c);
    if t != TargetId(c.id, None) {
      var k :| 0 <= k < |c.sections| && t == TargetId(c.id, Some(c.sections[k].anchor));
      assert RecordsSection(l, c, k);
    }
    var o := OwnerIsLast(docs, c.path);
    assert RecordsNode(l, docs, o);
    assert HashIn(digest, c, o.body, t, TargetHash(digest, l, t));
  }

  lemma {:induction false} AmbiguousFromDocs(l: Lattice, docs: seq<Doc>)
    requires Records(l, docs)
    ensures HasAmbiguous(l) <==> SomeAmbiguous(docs)
  {
    if HasAmbiguous(l) {
      var id, e :| EdgeOf(l, id, e) && e.targetId.Some? && e.targetId.value in l.collisions;
      AmbiguousEntry(l, docs, id, e);
    }
    if SomeAmbiguous(docs) {
      var d, k :| d in docs && 0 <= k < |d.derivesFrom| && NamesCollision(docs, d.derivesFrom[k].ref);
      AmbiguousEdge(l, docs, d, k);
    }
  }

  lemma {:induction false} AmbiguousEntry(l: Lattice, docs: seq<Doc>, id: string, e: Edge)
    requires Records(l, docs) && EdgeOf(l, id, e) && e.targetId.Some? && e.targetId.value in l.collisions
    ensures SomeAmbiguous(docs)
  {
    assert id in IdsOf(docs);
    var d :| d in docs && d.id == id;
    assert RecordsNode(l, docs, d) && GivenBy(docs, d.derivesFrom, e);
    var k: nat :| LastNaming(d.derivesFrom, k) && GivesEdge(docs, d.derivesFrom[k], e);
    var t := e.targetId.value;
    assert Names(docs, t);
    var c :| c in docs && NamedBy(c, t);
    assert RecordsFile(l, c);
    var j :| 0 <= j < |c.sections| && t == TargetId(c.id, Some(c.sections[j].anchor));
    assert RecordsSection(l, c, j);
    assert NamesCollision(docs, d.derivesFrom[k].ref);
  }

  lemma {:induction false} AmbiguousEdge(l: Lattice, docs: seq<Doc>, d: Doc, k: nat)
    requires Records(l, docs) && d in docs && k < |d.derivesFrom| && NamesCollision(docs, d.derivesFrom[k].ref)
    ensures HasAmbiguous(l)
  {
    var n := LastWith(d.derivesFrom, k);
    var e := EdgeOfEntry(l, docs, d, n);
    var c, j :| c in docs && 0 <= j < |c.sections| && c.sections[j].collision.Some?
             && ParseRef(d.derivesFrom[k].ref) == TargetId(c.id, Some(c.sections[j].anchor));
    assert RecordsSection(l, c, j) && NamedBy(c, ParseRef(d.derivesFrom[n].ref));
    assert EdgeOf(l, d.id, e);
  }

  lemma {:induction false} PlanFromDocs(digest: Digest, l: Lattice, docs: seq<Doc>, plan: Plan)
    requires Consistent(l, docs) && Records(l, docs) && Hashable(l)
    requires Answers(Planned(plan), digest, l, EVERYTHING)
    ensures PlanOf(digest, docs, plan)
  {
    forall d, k: nat | d in docs ensures EntryPlanned(digest, docs, plan, d, k) {
      if LastNaming(d.derivesFrom, k) {
        EntryFromDocs(digest, l, docs, plan, d, k);
      }
    }
    forall key | key in plan ensures KeyGiven(docs, key) {
      var e :| EdgeOf(l, key.0, e) && e.targetRef == key.1;
      assert key.0 in IdsOf(docs);
      var d :| d in docs && d.id == key.0;
      assert RecordsNode(l, docs, d) && GivenBy(docs, d.derivesFrom, e);
      var k: nat :| LastNaming(d.derivesFrom, k) && GivesEdge(docs, d.derivesFrom[k], e);
      assert key == (d.id, d.derivesFrom[k].ref);
    }
  }

  lemma {:induction false} EntryFromDocs(digest: Digest, l: Lattice, docs: seq<Doc>, plan: Plan, d: Doc, k: nat)
    requires Records(l, docs) && l.fileIdByPath == Owners(docs) && Hashable(l)
    requires Answers(Planned(plan), digest, l, EVERYTHING) && d in docs && LastNaming(d.derivesFrom, k)
    ensures EntryPlanned(digest, docs, plan, d, k)
  {
    var e := EdgeOfEntry(l, docs, d, k);
    assert PlannedExactly(plan, digest, l, EVERYTHING, d.id, e);
    if e.targetId.Some? {
      HashFromDocs(digest, l, docs, e.targetId.value);
      EntryForEdge(digest, l, docs, plan, d, k, e);
    }
  }

  lemma {:induction false} EntryForEdge(digest: Digest, l: Lattice, docs: seq<Doc>, plan: Plan, d: Doc, k: nat,
                                        e: Edge)
    requires Hashable(l) && PlannedExactly(plan, digest, l, EVERYTHING, d.id, e) && e.targetId.Some?
    requires StateOf(digest, l, e) != AMBIGUOUS
    requires HashIs(digest, docs, e.targetId.value, TargetHash(digest, l, e.targetId.value))
    requires LastNaming(d.derivesFrom, k) && GivesEdge(docs, d.derivesFrom[k], e)
    ensures EntryPlanned(digest, docs, plan, d, k)
  {
  }

  /** A plan changes nothing that a ref can name, nor which entry is the last for its ref. */
  lemma {:induction false} SameNames(docs: seq<Doc>, plan: Plan, t: TargetId)
    ensures Names(Applied(docs, plan), t) <==> Names(docs, t)
  {
    var now := Applied(docs, plan);
    if Names(now, t) {
      var d :| d in now && NamedBy(d, t);
      var i :| 0 <= i < |now| && now[i] == d;
      assert docs[i] in docs && NamedBy(docs[i], t);
    }
    if Names(docs, t) {
      var d :| d in docs && NamedBy(d, t);
      var i :| 0 <= i < |docs| && docs[i] == d;
      assert now[i] in now && NamedBy(now[i], t);
    }
  }

  lemma {:induction false} SameLastNaming(d: Doc, plan: Plan, k: nat)
    ensures LastNaming(Updated(d, plan).derivesFrom, k) <==> LastNaming(d.derivesFrom, k)
    ensures k < |d.derivesFrom| ==> Updated(d, plan).derivesFrom[k].ref == d.derivesFrom[k].ref
  {
    var raws, next := d.derivesFrom, Updated(d, plan).derivesFrom;
    assert forall j :: 0 <= j < |raws| ==> next[j].ref == raws[j].ref;
  }

  /** The status of an edge of the settled lattice, as the documents give it. */
  lemma {:induction false} StatusSettled(digest: Digest, now: Lattice, docs: seq<Doc>, plan: Plan, d: Doc, k: nat,
                                         e: Edge, s: EdgeStatus)
    requires Hashable(now) && Live(now, e) && StateOf(digest, now, e) in {OK, BROKEN}
    requires k < |d.derivesFrom| && GivesEdge(Applied(docs, plan), Updated(d, plan).derivesFrom[k], e)
    requires StatusFor(digest, now, d.id, e, s)
    ensures EntrySettled(docs, d, d.derivesFrom[k], s)
  {
    SameLastNaming(d, plan, k);
    SameNames(docs, plan, ParseRef(d.derivesFrom[k].ref));
  }

  lemma {:induction false} StatusesFromDocs(digest: Digest, now: Lattice, docs: seq<Doc>, plan: Plan,
                                            ids: seq<string>, statuses: seq<EdgeStatus>)
    requires Records(now, Applied(docs, plan)) && Hashable(now) && Settled(digest, now)
    requires ExactStatuses(statuses, digest, now, ids)
    ensures StatusesOf(docs, statuses)
  {
    var edges, next := EdgesOf(now, ids), Applied(docs, plan);
    forall d, k: nat | d in docs ensures EntryHasStatus(docs, statuses, d, k) {
      if LastNaming(d.derivesFrom, k) {
        var i := StatusOfEntry(digest, now, docs, plan, ids, statuses, d, k);
        assert statuses[i] in statuses;
      }
    }
    forall s | s in statuses ensures StatusGiven(docs, s) {
      var i: nat :| i < |statuses| && statuses[i] == s;
      var d, k := EntryOfStatus(digest, now, docs, plan, ids, statuses, i);
    }
    KeysDistinct(now, ids);
    assert DistinctKeys(edges);
  }

  lemma {:induction false} StatusOfEntry(digest: Digest, now: Lattice, docs: seq<Doc>, plan: Plan, ids: seq<string>,
                                         statuses: seq<EdgeStatus>, d: Doc, k: nat)
    returns (i: nat)
    requires Records(now, Applied(docs, plan)) && Hashable(now) && Settled(digest, now)
    requires ExactStatuses(statuses, digest, now, ids) && d in docs && LastNaming(d.derivesFrom, k)
    ensures i < |statuses| && EntrySettled(docs, d, d.derivesFrom[k], statuses[i])
  {
    var next, edges := Applied(docs, plan), EdgesOf(now, ids);
    var j :| 0 <= j < |docs| && docs[j] == d;
    assert next[j] == Updated(d, plan) && next[j] in next && RecordsNode(now, next, next[j]);
    SameLastNaming(d, plan, k);
    assert HasEdge(next, next[j].derivesFrom, k, now.nodesById[d.id].derivesFrom);
    var e :| e in now.nodesById[d.id].derivesFrom && GivesEdge(next, next[j].derivesFrom[k], e);
    EdgesOfAre(now, ids, d.id, e);
    i :| 0 <= i < |edges| && edges[i] == (d.id, e);
    StatusSettled(digest, now, docs, plan, d, k, e, statuses[i]);
  }

  lemma {:induction false} EntryOfEdge(now: Lattice, docs: seq<Doc>, plan: Plan, id: string, e: Edge)
    returns (d: Doc, k: nat)
    requires Records(now, Applied(docs, plan)) && EdgeOf(now, id, e)
    ensures d in docs && d.id == id && LastNaming(d.derivesFrom, k)
    ensures GivesEdge(Applied(docs, plan), Updated(d, plan).derivesFrom[k], e)
  {
    var next := Applied(docs, plan);
    assert id in IdsOf(next);
    var after :| after in next && after.id == id;
    var j :| 0 <= j < |docs| && next[j] == after;
    d := docs[j];
    assert after == Updated(d, plan) && RecordsNode(now, next, after) && GivenBy(next, after.derivesFrom, e);
    k :| LastNaming(after.derivesFrom, k) && GivesEdge(next, after.derivesFrom[k], e);
    SameLastNaming(d, plan, k);
  }

  lemma {:induction false} EntryOfStatus(digest: Digest, now: Lattice, docs: seq<Doc>, plan: Plan, ids: seq<string>,
                                         statuses: seq<EdgeStatus>, i: nat)
    returns (d: Doc, k: nat)
    requires Records(now, Applied(docs, plan)) && Hashable(now) && Settled(digest, now)
    requires ExactStatuses(statuses, digest, now, ids) && i < |statuses|
    ensures d in docs && LastNaming(d.derivesFrom, k) && EntrySettled(docs, d, d.derivesFrom[k], statuses[i])
  {
    var (id, e) := EdgesOf(now, ids)[i];
    assert (id, e) in EdgesOf(now, ids);
    EdgesOfAre(now, ids, id, e);
    d, k := EntryOfEdge(now, docs, plan, id, e);
    StatusSettled(digest, now, docs, plan, d, k, e, statuses[i]);
  }

  /** Only an ambiguous edge refuses a run over everything, and it is named. */
  lemma {:induction false} RefusedForAmbiguity(digest: Digest, l: Lattice, r: Planning)
    requires Hashable(l) && Answers(r, digest, l, EVERYTHING)
    ensures !r.Planned? ==> r.AmbiguousRef? && EdgeOf(l, r.source, r.edge)
    ensures !r.Planned? ==> Live(l, r.edge) && StateOf(digest, l, r.edge) == AMBIGUOUS
    ensures r.Planned? <==> !HasAmbiguous(l)
  {
  }

  /** Build, reconcile everything, apply, rebuild and check. The run is refused exactly if an edge
      is ambiguous. Otherwise the plan holds exactly the drifting edges, the statuses are those of
      the rebuilt lattice's edges, only OK and BROKEN are left and planning again gives nothing. What is
      refused, planned and left is also read off the documents. */
  method FullPass(digest: Digest, docs: seq<Doc>)
    returns (r: PassResult, ghost l: Lattice, ghost now: Lattice, ghost nowIds: seq<string>)
    ensures r.NotBuilt? <==> !DistinctIds(docs)
    ensures r.Refused? <==> !r.NotBuilt? && SomeAmbiguous(docs)
    ensures r.Cleared? ==> PlanOf(digest, docs, r.plan) && StatusesOf(docs, r.statuses)
    ensures r.NotBuilt? <==> !DistinctTargets(AllRegistrations(docs))
    ensures !r.NotBuilt? ==> Consistent(l, docs) && Records(l, docs) && (r.Refused? <==> HasAmbiguous(l))
    ensures r.Refused? ==> r.planning.AmbiguousRef? && EdgeOf(l, r.planning.source, r.planning.edge)
    ensures r.Refused? ==>
      Hashable(l) && Live(l, r.planning.edge) && StateOf(digest, l, r.planning.edge) == AMBIGUOUS
    ensures r.Cleared? ==> ExactPlan(r.plan, digest, l, EVERYTHING) && Consistent(now, Applied(docs, r.plan))
    ensures r.Cleared? ==> ExactStatuses(r.statuses, digest, now, nowIds)
    ensures r.Cleared? ==> forall i :: 0 <= i < |r.statuses| ==> r.statuses[i].state in {OK, BROKEN}
    ensures r.Cleared? ==>
      (HasDrift(r.statuses) <==> exists i :: 0 <= i < |r.statuses| && r.statuses[i].state == BROKEN)
    ensures r.Cleared? ==> r.again == Planned(map[])
  {
    var built := BuildLattice(docs);
    if built.DuplicateId? {
      r := NotBuilt(built.target);
      l, now, nowIds := *, *, [];
      return;
    }
    var lattice := built.lattice;
    l, now, nowIds := lattice, lattice, [];
    ConsistentIsHashable(lattice, docs);
    var ids := NodeIds(lattice);
    var planning := Reconcile(digest, lattice, ids, EVERYTHING);
    AmbiguousFromDocs(lattice, docs);
    RefusedForAmbiguity(digest, lattice, planning);
    if !planning.Planned? {
      r := Refused(planning);
      return;
    }
    var plan := planning.plan;
    PlanFromDocs(digest, lattice, docs, plan);
    var again, statuses;
    again, statuses, now, nowIds := SecondPass(digest, docs, lattice, plan);
    r := Cleared(plan, again, statuses);
  }

  /** Apply a plan for everything, rebuild, plan again and check. */
  method SecondPass(digest: Digest, docs: seq<Doc>, ghost l: Lattice, plan: Plan)
    returns (again: Planning, statuses: seq<EdgeStatus>, ghost now: Lattice, ghost nowIds: seq<string>)
    requires Consistent(l, docs) && Hashable(l) && Answers(Planned(plan), digest, l, EVERYTHING)
    ensures StatusesOf(docs, statuses)
    ensures Consistent(now, Applied(docs, plan)) && ExactStatuses(statuses, digest, now, nowIds)
    ensures forall i :: 0 <= i < |statuses| ==> statuses[i].state in {OK, BROKEN}
    ensures again == Planned(map[])
  {
    AppliedSameShape(docs, plan);
    var rebuilt := BuildLattice(Applied(docs, plan));
    var lattice := rebuilt.lattice;
    RebuiltAfter(l, lattice, docs, plan);
    ReconcileAllSettles(digest, l, lattice, docs, plan);
    var those := NodeIds(lattice);
    ConsistentIsHashable(lattice, Applied(docs, plan));
    again := Reconcile(digest, lattice, those, EVERYTHING);
    SettledPlansNothing(digest, lattice, again);
    statuses := CheckLattice(digest, lattice, those);
    SettledStatuses(digest, lattice, those, statuses);
    StatusesFromDocs(digest, lattice, docs, plan, those, statuses);
    now, nowIds := lattice, those;
  }

  lemma {:induction false} SettledStatuses(digest: Digest, l: Lattice, ids: seq<string>, statuses: seq<EdgeStatus>)
    requires Ready(l, ids) && Settled(digest, l) && |statuses| == |EdgesOf(l, ids)|
    requires forall i :: 0 <= i < |statuses| ==>
      && Live(l, EdgesOf(l, ids)[i].1)
      && StatusFor(digest, l, EdgesOf(l, ids)[i].0, EdgesOf(l, ids)[i].1, statuses[i])
    ensures forall i :: 0 <= i < |statuses| ==> statuses[i].state in {OK, BROKEN}
  {
    var edges := EdgesOf(l, ids);
    forall i | 0 <= i < |statuses| ensures statuses[i].state in {OK, BROKEN} {
      EdgesOfAre(l, ids, edges[i].0, edges[i].1);
      assert edges[i] in edges;
    }
  }
}
