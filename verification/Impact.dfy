/** Impact: the breadth-first reverse walk against shortest derives-from distance. */
module Impact {
  import opened LatticeModel
  import opened Sections
  import opened Wrappers

  // ---- distance ----------------------------------------------------------------------

  /** The targets a node contributes: its whole file and every anchored section of it. */
  function TargetsOfNode(l: Lattice, id: string): set<TargetId>
    requires id in l.nodesById && l.nodesById[id].path in l.anchorsByPath
  {
    {TargetId(id, None)} + l.anchorsByPath[l.nodesById[id].path]
  }

  function DependentsAt(l: Lattice, t: TargetId): set<string>
  {
    if t in l.dependents then l.dependents[t] else {}
  }

  /** The maps a walk looks nodes up in are total on the nodes it meets. */
  ghost predicate Walkable(l: Lattice)
  {
    && (forall t :: t in l.dependents ==> l.dependents[t] <= l.nodesById.Keys)
    && (forall id :: id in l.nodesById ==> l.nodesById[id].path in l.anchorsByPath)
  }

  /** A derives-from chain: each node derives from the one before it, the first from a start. */
  ghost predicate IsChain(l: Lattice, start: set<TargetId>, chain: seq<string>)
    requires Walkable(l)
  {
    && (forall i :: 0 <= i < |chain| ==> chain[i] in l.nodesById)
    && (forall i :: 0 <= i < |chain| ==> DerivesAt(l, start, chain, i))
  }

  ghost predicate DerivesAt(l: Lattice, start: set<TargetId>, chain: seq<string>, i: nat)
    requires Walkable(l) && i < |chain|
  {
    exists t :: t in l.dependents && chain[i] in l.dependents[t]
      && if i == 0 then t in start
         else && chain[i - 1] in l.nodesById
              && (t == TargetId(chain[i - 1], None) || t in l.anchorsByPath[l.nodesById[chain[i - 1]].path])
  }

  ghost predicate Reaches(l: Lattice, start: set<TargetId>, chain: seq<string>, id: string)
    requires Walkable(l)
  {
    chain != [] && IsChain(l, start, chain) && chain[|chain| - 1] == id
  }

  /** The shortest chain from the start to the node has `d` nodes. */
  ghost predicate AtDistance(l: Lattice, start: set<TargetId>, id: string, d: nat)
    requires Walkable(l)
  {
    && (exists chain :: |chain| == d && Reaches(l, start, chain, id))
    && (forall chain :: Reaches(l, start, chain, id) ==> |chain| >= d)
  }

  // ---- the walk ----------------------------------------------------------------------

  datatype Entry = Entry(target: TargetId, depth: nat)

  predicate Bounded(depth: int, maxDepth: Option<int>)
  {
    maxDepth.None? || depth < maxDepth.value
  }

  /** Some chain of `d` nodes ends in a node that contributes `t`, or `t` is a start. */
  ghost predicate Justified(l: Lattice, start: set<TargetId>, t: TargetId, d: nat)
    requires Walkable(l)
  {
    if d == 0 then t in start
    else exists chain, id :: |chain| == d && id in l.nodesById && Reaches(l, start, chain, id)
                          && t in TargetsOfNode(l, id)
  }

  ghost predicate Queued(queue: seq<Entry>, t: TargetId, d: nat)
  {
    exists i :: 0 <= i < |queue| && queue[i].target == t && queue[i].depth <= d
  }

  /** The target has been visited, or is due to be, no deeper than `d`. */
  ghost predicate Due(queue: seq<Entry>, visited: map<TargetId, nat>, t: TargetId, d: nat)
  {
    (t in visited && visited[t] <= d) || Queued(queue, t, d)
  }

  /** Everything derived from a visited target within the bound is affected, one deeper. */
  ghost predicate Spread(l: Lattice, affected: map<string, nat>, t: TargetId, d: nat, maxDepth: Option<int>)
  {
    Bounded(d, maxDepth) ==> forall id :: id in DependentsAt(l, t) ==> id in affected && affected[id] <= d + 1
  }

  /** A node reported at depth `d` is at the end of a chain of `d` nodes, within the bound. */
  ghost predicate Reported(l: Lattice, start: set<TargetId>, id: string, d: nat, maxDepth: Option<int>)
    requires Walkable(l)
  {
    && id in l.nodesById && d >= 1 && Bounded(d - 1, maxDepth)
    && exists chain :: |chain| == d && Reaches(l, start, chain, id)
  }

  /** A reported node within the bound has all its targets due. */
  ghost predicate Continued(l: Lattice, queue: seq<Entry>, visited: map<TargetId, nat>, id: string, d: nat,
                            maxDepth: Option<int>)
    requires Walkable(l) && id in l.nodesById
  {
    Bounded(d, maxDepth) ==> forall t :: t in TargetsOfNode(l, id) ==> Due(queue, visited, t, d)
  }

  /** Depths in the queue never fall, and stay within one of the level last popped. */
  ghost predicate Levelled(queue: seq<Entry>, visited: map<TargetId, nat>, affected: map<string, nat>, level: nat)
  {
    && (forall i :: 0 <= i < |queue| ==> level <= queue[i].depth <= level + 1)
    && (forall i, j :: 0 <= i < j < |queue| ==> queue[i].depth <= queue[j].depth)
    && (forall t :: t in visited ==> visited[t] <= level)
    && (forall id :: id in affected ==> affected[id] <= level + 1)
  }

  ghost predicate Walking(l: Lattice, start: set<TargetId>, maxDepth: Option<int>, queue: seq<Entry>,
                          visited: map<TargetId, nat>, affected: map<string, nat>)
    requires Walkable(l)
  {
    && (forall i :: 0 <= i < |queue| ==> Justified(l, start, queue[i].target, queue[i].depth))
    && (forall t {:trigger Due(queue, visited, t, 0)} :: t in start ==> Due(queue, visited, t, 0))
    && (forall id {:trigger affected[id]} :: id in affected ==>
          Reported(l, start, id, affected[id], maxDepth) && Continued(l, queue, visited, id, affected[id], maxDepth))
  }

  ghost predicate AllSpread(l: Lattice, visited: map<TargetId, nat>, affected: map<string, nat>, maxDepth: Option<int>)
  {
    forall t {:trigger visited[t]} :: t in visited ==> Spread(l, affected, t, visited[t], maxDepth)
  }

  lemma {:induction false} ExtendChain(l: Lattice, start: set<TargetId>, t: TargetId, d: nat, id: string)
    requires Walkable(l) && Justified(l, start, t, d) && id in DependentsAt(l, t)
    ensures exists chain :: |chain| == d + 1 && Reaches(l, start, chain, id)
  {
    if d == 0 {
      assert DerivesAt(l, start, [id], 0);
      assert Reaches(l, start, [id], id);
    } else {
      var chain, last :| |chain| == d && last in l.nodesById && Reaches(l, start, chain, last)
                      && t in TargetsOfNode(l, last);
      var longer := chain + [id];
      forall i | 0 <= i < |longer| ensures DerivesAt(l, start, longer, i) {
        if i < |chain| {
          assert DerivesAt(l, start, chain, i);
          var u :| u in l.dependents && chain[i] in l.dependents[u]
                && if i == 0 then u in start else chain[i - 1] in l.nodesById && u in TargetsOfNode(l, chain[i - 1]);
          assert longer[i] in l.dependents[u];
        } else {
          assert longer[i] in l.dependents[t];
        }
      }
      assert Reaches(l, start, longer, id);
    }
  }

  /** When the queue is empty, every node at the end of a chain within the bound is reported no
      deeper than the chain is long. */
  lemma {:induction false} ChainReported(l: Lattice, start: set<TargetId>, maxDepth: Option<int>,
                                         visited: map<TargetId, nat>, affected: map<string, nat>,
                                         chain: seq<string>, n: nat)
    requires Walkable(l) && Walking(l, start, maxDepth, [], visited, affected)
    requires AllSpread(l, visited, affected, maxDepth)
    requires IsChain(l, start, chain) && n < |chain| && Bounded(n, maxDepth)
    ensures chain[n] in affected && affected[chain[n]] <= n + 1
  {
    assert DerivesAt(l, start, chain, n);
    var t :| t in l.dependents && chain[n] in l.dependents[t]
          && if n == 0 then t in start else chain[n - 1] in l.nodesById && t in TargetsOfNode(l, chain[n - 1]);
    if n == 0 {
      assert Due([], visited, t, 0);
    } else {
      ChainReported(l, start, maxDepth, visited, affected, chain, n - 1);
      var d := affected[chain[n - 1]];
      assert Continued(l, [], visited, chain[n - 1], d, maxDepth);
      assert Due([], visited, t, d);
    }
    assert Spread(l, affected, t, visited[t], maxDepth);
  }

  /** `depths` gives each node its shortest distance, where that is within the bound. */
  ghost predicate ShortestDistances(l: Lattice, start: set<TargetId>, maxDepth: Option<int>, depths: map<string, nat>)
    requires Walkable(l)
  {
    forall id, d: nat :: (id in depths && depths[id] == d)
      <==> (d >= 1 && (maxDepth.Some? ==> d <= maxDepth.value) && AtDistance(l, start, id, d))
  }

  /** What a finished walk reports: a node at depth `d` exactly if that is its shortest distance
      and within the bound. */
  lemma {:induction false} FinishedWalk(l: Lattice, start: set<TargetId>, maxDepth: Option<int>,
                                        visited: map<TargetId, nat>, affected: map<string, nat>)
    requires Walkable(l) && Walking(l, start, maxDepth, [], visited, affected)
    requires AllSpread(l, visited, affected, maxDepth)
    ensures ShortestDistances(l, start, maxDepth, affected)
  {
    forall id, d: nat
      ensures (id in affected && affected[id] == d)
         <==> (d >= 1 && (maxDepth.Some? ==> d <= maxDepth.value) && AtDistance(l, start, id, d))
    {
      forall chain | Reaches(l, start, chain, id) && Bounded(|chain| - 1, maxDepth)
        ensures id in affected && affected[id] <= |chain|
      {
        ChainReported(l, start, maxDepth, visited, affected, chain, |chain| - 1);
      }
      if id in affected {
        assert Reported(l, start, id, affected[id], maxDepth);
        forall chain | Reaches(l, start, chain, id) ensures |chain| >= affected[id] {
        }
      }
    }
  }

  // ---- steps of the walk ---------------------------------------------------------------

  lemma {:induction false} DueAfterPop(queue: seq<Entry>, visited: map<TargetId, nat>, now: map<TargetId, nat>,
                                       t: TargetId, d: nat)
    requires queue != [] && Due(queue, visited, t, d)
    requires forall u :: u in visited ==> u in now && now[u] <= visited[u]
    requires queue[0].target in now && now[queue[0].target] <= queue[0].depth
    ensures Due(queue[1..], now, t, d)
  {
    if Queued(queue, t, d) {
      var i :| 0 <= i < |queue| && queue[i].target == t && queue[i].depth <= d;
      if i > 0 { assert queue[1..][i - 1] == queue[i]; }
    }
  }

  /** Popping a target, visited before or only now, keeps everything due. */
  lemma {:induction false} Popped(l: Lattice, start: set<TargetId>, maxDepth: Option<int>, queue: seq<Entry>,
                                  visited: map<TargetId, nat>, affected: map<string, nat>, level: nat)
    requires Walkable(l) && queue != [] && Walking(l, start, maxDepth, queue, visited, affected)
    requires Levelled(queue, visited, affected, level)
    ensures var (t, d) := (queue[0].target, queue[0].depth);
      var now := if t in visited then visited else visited[t := d];
      && Walking(l, start, maxDepth, queue[1..], now, affected)
      && Levelled(queue[1..], now, affected, d)
      && Justified(l, start, t, d)
  {
    var (t, d) := (queue[0].target, queue[0].depth);
    var now, rest := if t in visited then visited else visited[t := d], queue[1..];
    forall i | 0 <= i < |rest| ensures Justified(l, start, rest[i].target, rest[i].depth) {
      assert rest[i] == queue[i + 1];
    }
    forall u | u in start ensures Due(rest, now, u, 0) {
      DueAfterPop(queue, visited, now, u, 0);
    }
    forall id | id in affected ensures Continued(l, rest, now, id, affected[id], maxDepth) {
      assert Continued(l, queue, visited, id, affected[id], maxDepth);
      if Bounded(affected[id], maxDepth) {
        forall u | u in TargetsOfNode(l, id) ensures Due(rest, now, u, affected[id]) {
          DueAfterPop(queue, visited, now, u, affected[id]);
        }
      }
    }
  }

  lemma {:induction false} DueWithMore(queue: seq<Entry>, more: seq<Entry>, visited: map<TargetId, nat>,
                                       t: TargetId, d: nat)
    requires Due(queue, visited, t, d)
    ensures Due(queue + more, visited, t, d)
  {
    if Queued(queue, t, d) {
      var i :| 0 <= i < |queue| && queue[i].target == t && queue[i].depth <= d;
      assert (queue + more)[i] == queue[i];
    }
  }

  /** `entries` queues exactly the targets of a set at one depth. */
  ghost predicate Enqueues(entries: seq<Entry>, targets: set<TargetId>, d: nat)
  {
    && (forall i :: 0 <= i < |entries| ==> entries[i].target in targets && entries[i].depth == d)
    && (forall t :: t in targets ==> HasTarget(entries, t))
  }

  ghost predicate HasTarget(entries: seq<Entry>, t: TargetId)
  {
    exists i :: 0 <= i < |entries| && entries[i].target == t
  }

  /** Reporting a new node and queueing what it contributes. */
  lemma {:induction false} Report(l: Lattice, start: set<TargetId>, maxDepth: Option<int>, queue: seq<Entry>,
                                  visited: map<TargetId, nat>, affected: map<string, nat>,
                                  t: TargetId, d: nat, id: string, more: seq<Entry>)
    requires Walkable(l) && Walking(l, start, maxDepth, queue, visited, affected)
    requires Justified(l, start, t, d) && Bounded(d, maxDepth)
    requires id in DependentsAt(l, t) && id !in affected && id in l.nodesById
    requires if Bounded(d + 1, maxDepth) then Enqueues(more, TargetsOfNode(l, id), d + 1) else more == []
    ensures Walking(l, start, maxDepth, queue + more, visited, affected[id := d + 1])
  {
    var longer, now := queue + more, affected[id := d + 1];
    ExtendChain(l, start, t, d, id);
    forall i | 0 <= i < |longer| ensures Justified(l, start, longer[i].target, longer[i].depth) {
      if i < |queue| {
        assert longer[i] == queue[i];
      } else {
        assert longer[i] == more[i - |queue|];
      }
    }
    forall u | u in start ensures Due(longer, visited, u, 0) {
      assert Due(queue, visited, u, 0);
      DueWithMore(queue, more, visited, u, 0);
    }
    forall other | other in now
      ensures Reported(l, start, other, now[other], maxDepth)
      ensures Continued(l, longer, visited, other, now[other], maxDepth)
    {
      if other == id {
        NewContinued(l, queue, more, visited, id, d + 1, maxDepth);
      } else {
        assert Continued(l, queue, visited, other, affected[other], maxDepth);
        if Bounded(affected[other], maxDepth) {
          forall u | u in TargetsOfNode(l, other) ensures Due(longer, visited, u, affected[other]) {
            DueWithMore(queue, more, visited, u, affected[other]);
          }
        }
      }
    }
  }

  lemma {:induction false} ReportLevels(queue: seq<Entry>, visited: map<TargetId, nat>, affected: map<string, nat>,
                                        d: nat, id: string, more: seq<Entry>)
    requires Levelled(queue, visited, affected, d) && forall i :: 0 <= i < |more| ==> more[i].depth == d + 1
    ensures Levelled(queue + more, visited, affected[id := d + 1], d)
  {
  }

  lemma {:induction false} NewContinued(l: Lattice, queue: seq<Entry>, more: seq<Entry>, visited: map<TargetId, nat>,
                                        id: string, d: nat, maxDepth: Option<int>)
    requires Walkable(l) && id in l.nodesById
    requires Bounded(d, maxDepth) ==> Enqueues(more, TargetsOfNode(l, id), d)
    ensures Continued(l, queue + more, visited, id, d, maxDepth)
  {
    if Bounded(d, maxDepth) {
      forall u | u in TargetsOfNode(l, id) ensures Due(queue + more, visited, u, d) {
        assert HasTarget(more, u);
        var i :| 0 <= i < |more| && more[i].target == u;
        assert (queue + more)[|queue| + i] == more[i];
      }
    }
  }

  /** The entries for a set of targets, in some order. */
  method Enqueue(targets: set<TargetId>, d: nat) returns (entries: seq<Entry>)
    ensures Enqueues(entries, targets, d)
  {
    entries := [];
    var todo := targets;
    while todo != {}
      invariant todo <= targets && Enqueues(entries, targets - todo, d)
      decreases todo
    {
      var t :| t in todo;
      ghost var before, done := entries, targets - todo;
      entries := entries + [Entry(t, d)];
      forall u | u in done + {t} ensures HasTarget(entries, u) {
        if u in done {
          assert HasTarget(before, u);
          var i :| 0 <= i < |before| && before[i].target == u;
          assert entries[i] == before[i];
        } else {
          assert entries[|before|].target == u;
        }
      }
      assert targets - (todo - {t}) == done + {t};
      todo := todo - {t};
    }
    assert targets - todo == targets;
  }

  // ---- expanding the token --------------------------------------------------------------

  /** The maps a token's expansion looks up are total on the index. */
  ghost predicate Expandable(l: Lattice)
  {
    forall t :: t in l.index ==>
      && l.index[t].path in l.fileIdByPath && l.index[t].path in l.anchorsByPath
      && (!l.index[t].isFile ==> t in l.ancestors)
  }

  /** The targets a token touches. */
  method ExpandTargets(l: Lattice, token: string) returns (expanded: set<TargetId>)
    requires Expandable(l)
    ensures expanded == Expanded(l, token)
  {
    var target := ParseRef(token);
    if target !in l.index { return {}; }
    var location := l.index[target];
    if location.isFile {
      return {target} + l.anchorsByPath[location.path];
    }
    var ids := set a | a in l.ancestors[target];
    return {target} + ids + {TargetId(l.fileIdByPath[location.path], None)};
  }

  /** The targets of a token: with a file, its anchored sections; with a section, its recorded
      ancestors and its file. */
  ghost function Expanded(l: Lattice, token: string): set<TargetId>
  {
    var target := ParseRef(token);
    if target !in l.index then {}
    else if l.index[target].isFile then
      {target} + (if l.index[target].path in l.anchorsByPath then l.anchorsByPath[l.index[target].path] else {})
    else
      {target} + (if target in l.ancestors then set a | a in l.ancestors[target] else {})
      + (if l.index[target].path in l.fileIdByPath then {TargetId(l.fileIdByPath[l.index[target].path], None)} else {})
  }

  /** A built lattice has every map the commands look things up in. */
  lemma {:induction false} ConsistentIsExpandable(l: Lattice, docs: seq<Doc>)
    requires Consistent(l, docs)
    ensures Expandable(l)
  {
    forall t | t in l.index
      ensures l.index[t].path in l.fileIdByPath && l.index[t].path in l.anchorsByPath
      ensures !l.index[t].isFile ==> t in l.ancestors
    {
      IndexExpandable(l, docs, t);
    }
  }

  lemma {:induction false} IndexExpandable(l: Lattice, docs: seq<Doc>, t: TargetId)
    requires Consistent(l, docs) && t in l.index
    ensures l.index[t].path in l.fileIdByPath
    ensures !l.index[t].isFile ==> t in l.ancestors
  {
    var d := IndexOrigin(Registry(l.index, l.collisions, l.ancestorContext), docs, t);
    PathKnown(l, docs, d);
    assert AncestorsOf(l.ancestors, d);
    if t.anchor.Some? {
      var k :| 0 <= k < |d.sections| && t == d.At(k);
      assert AncestorsAt(l.ancestors, d, k);
    }
  }

  lemma {:induction false} ConsistentIsWalkable(l: Lattice, docs: seq<Doc>)
    requires Consistent(l, docs)
    ensures Walkable(l)
  {
    forall t, id | t in l.dependents && id in l.dependents[t] ensures id in l.nodesById {
    }
  }

  /** A section expands to itself, its file and exactly the sections of the document whose spans
      enclose its own. */
  lemma {:induction false} SectionExpandsToEnclosing(ancestors: map<TargetId, seq<TargetId>>, d: Doc,
                                                     headings: seq<Heading>, k: nat, j: nat)
    requires AncestorsOf(ancestors, d) && DistinctAnchors(d) && Sectioned(d, headings)
    requires k < |d.sections| && j < |d.sections| && d.At(k) in ancestors
    ensures d.At(j) in ancestors[d.At(k)] <==> Encloses(d.sections[j].span, d.sections[k].span)
  {
    SpansAreLaminar(headings, d.totalLines, d.Spans());
    assert AncestorsAt(ancestors, d, k);
    var ids := ancestors[d.At(k)];
    var chain :| KeptAt(ReachedBy(d.Spans()), chain, k) && NamesChain(ids, d, chain);
    RecordedEncloses(d.Spans(), chain, k, j);
    ChainNames(ids, d, chain, j);
  }

  lemma {:induction false} ChainNames(ids: seq<TargetId>, d: Doc, chain: seq<nat>, j: nat)
    requires NamesChain(ids, d, chain) && DistinctAnchors(d) && j < |d.sections|
    ensures d.At(j) in ids <==> j in chain
  {
    if j in chain {
      var p :| 0 <= p < |chain| && chain[p] == j;
      assert ids[p] == d.At(j);
    }
    if d.At(j) in ids {
      var p :| 0 <= p < |ids| && ids[p] == d.At(j);
      assert d.At(chain[p]) == d.At(j);
      assert chain[p] == j;
    }
  }

  lemma {:induction false} SectionIndexed(l: Lattice, docs: seq<Doc>, i: nat, k: nat)
    requires Consistent(l, docs) && i < |docs| && k < |docs[i].sections|
    ensures var t := docs[i].At(k);
      && t in l.index && !l.index[t].isFile && l.index[t].path == docs[i].path
      && t in l.ancestors && AncestorsOf(l.ancestors, docs[i]) && docs[i].path in l.fileIdByPath
  {
    var d := docs[i];
    DocKnown(Registry(l.index, l.collisions, l.ancestorContext), docs, i, 1 + k);
    assert RegistrationsOf(d)[1 + k].target == d.At(k);
    PathKnown(l, docs, d);
    assert AncestorsOf(l.ancestors, d) && AncestorsAt(l.ancestors, d, k);
  }

  /** A section token touches the section, its file and exactly the sections whose spans enclose it. */
  lemma {:induction false} SectionTokenTouches(l: Lattice, docs: seq<Doc>, headings: seq<Heading>, token: string,
                                               i: nat, k: nat, u: TargetId)
    requires Consistent(l, docs) && i < |docs| && k < |docs[i].sections| && ParseRef(token) == docs[i].At(k)
    requires Sectioned(docs[i], headings)
    ensures docs[i].path in l.fileIdByPath
    ensures u in Expanded(l, token) <==>
      || u == docs[i].At(k) || u == TargetId(l.fileIdByPath[docs[i].path], None)
      || (exists j :: 0 <= j < |docs[i].sections| && u == docs[i].At(j)
                   && Encloses(docs[i].sections[j].span, docs[i].sections[k].span))
  {
    var d, t := docs[i], docs[i].At(k);
    SectionIndexed(l, docs, i, k);
    DocsDistinct(docs, i);
    var ids := l.ancestors[t];
    assert u in Expanded(l, token) <==>
      u == t || u in ids || u == TargetId(l.fileIdByPath[d.path], None);
    AncestorsEnclose(l.ancestors, d, headings, k, u);
  }

  lemma {:induction false} AncestorsEnclose(ancestors: map<TargetId, seq<TargetId>>, d: Doc, headings: seq<Heading>,
                                            k: nat, u: TargetId)
    requires AncestorsOf(ancestors, d) && DistinctAnchors(d) && Sectioned(d, headings)
    requires k < |d.sections| && d.At(k) in ancestors
    ensures u in ancestors[d.At(k)] <==>
      exists j :: 0 <= j < |d.sections| && u == d.At(j) && Encloses(d.sections[j].span, d.sections[k].span)
  {
    assert AncestorsAt(ancestors, d, k);
    var ids := ancestors[d.At(k)];
    var chain :| KeptAt(ReachedBy(d.Spans()), chain, k) && NamesChain(ids, d, chain);
    if u in ids {
      var p :| 0 <= p < |ids| && ids[p] == u;
      SectionExpandsToEnclosing(ancestors, d, headings, k, chain[p]);
    }
    if exists j :: 0 <= j < |d.sections| && u == d.At(j) && Encloses(d.sections[j].span, d.sections[k].span) {
      var j: nat :| j < |d.sections| && u == d.At(j) && Encloses(d.sections[j].span, d.sections[k].span);
      SectionExpandsToEnclosing(ancestors, d, headings, k, j);
    }
  }

  /** A file token touches the file and exactly the sections indexed at its path. */
  lemma {:induction false} FileTokenTouches(l: Lattice, docs: seq<Doc>, token: string, d: Doc, u: TargetId)
    requires Consistent(l, docs) && d in docs && ParseRef(token) == TargetId(d.id, None)
    ensures u in Expanded(l, token) <==> PartOf(docs, d, u)
  {
    ConsistentRecords(l, docs);
    assert RecordsFile(l, d);
    ConsistentIsExpandable(l, docs);
    PartsOf(l, docs, d, u);
  }

  // ---- distance, read off the documents --------------------------------------------------

  /** The document's file, or a section at its path. */
  ghost predicate PartOf(docs: seq<Doc>, d: Doc, t: TargetId)
  {
    t == TargetId(d.id, None) || SectionAt(docs, d.path, t)
  }

  ghost predicate SectionAt(docs: seq<Doc>, path: string, t: TargetId)
  {
    exists c, k :: c in docs && c.path == path && 0 <= k < |c.sections|
      && t == TargetId(c.id, Some(c.sections[k].anchor))
  }

  /** Where no other document is at its path, that is the file or any section of it. */
  lemma {:induction false} PartsAreItsOwn(docs: seq<Doc>, d: Doc, t: TargetId)
    requires DistinctIds(docs) && d in docs && forall c :: c in docs && c.path == d.path ==> c == d
    ensures PartOf(docs, d, t) <==> Names(docs, t) && t.fileId == d.id
  {
    if Names(docs, t) && t.fileId == d.id {
      var c :| c in docs && NamedBy(c, t);
      SameDoc(docs, c, d);
    }
    if PartOf(docs, d, t) {
      assert NamedBy(d, t);
    }
  }

  lemma SameDoc(docs: seq<Doc>, c: Doc, d: Doc)
    requires DistinctIds(docs) && c in docs && d in docs && c.id == d.id
    ensures c == d
  {
    var i :| 0 <= i < |docs| && docs[i] == c;
    var j :| 0 <= j < |docs| && docs[j] == d;
    assert i == j;
  }

  /** A chain of documents: some entry of the first names a start, and some entry of each other names
      the file, or a section at the path, of the one before it. */
  ghost predicate IsDocChain(docs: seq<Doc>, start: set<TargetId>, chain: seq<Doc>)
  {
    && (forall i :: 0 <= i < |chain| ==> chain[i] in docs)
    && forall i :: 0 <= i < |chain| ==> FollowsOn(docs, start, chain, i)
  }

  ghost predicate FollowsOn(docs: seq<Doc>, start: set<TargetId>, chain: seq<Doc>, i: nat)
    requires i < |chain|
  {
    exists t :: Resolves(docs, chain[i], t) && if i == 0 then t in start else PartOf(docs, chain[i - 1], t)
  }

  ghost predicate DocReaches(docs: seq<Doc>, start: set<TargetId>, chain: seq<Doc>, id: string)
  {
    chain != [] && IsDocChain(docs, start, chain) && chain[|chain| - 1].id == id
  }

  /** The shortest such chain to the document with the id has `d` documents. */
  ghost predicate DocDistance(docs: seq<Doc>, start: set<TargetId>, id: string, d: nat)
  {
    && (exists chain :: |chain| == d && DocReaches(docs, start, chain, id))
    && (forall chain :: DocReaches(docs, start, chain, id) ==> |chain| >= d)
  }

  ghost predicate DocDistances(docs: seq<Doc>, start: set<TargetId>, maxDepth: Option<int>, depths: map<string, nat>)
  {
    forall id, d: nat :: (id in depths && depths[id] == d)
      <==> (d >= 1 && (maxDepth.Some? ==> d <= maxDepth.value) && DocDistance(docs, start, id, d))
  }

  lemma {:induction false} PartsOf(l: Lattice, docs: seq<Doc>, d: Doc, t: TargetId)
    requires Consistent(l, docs) && Records(l, docs) && d in docs
    ensures d.id in l.nodesById && l.nodesById[d.id].path == d.path && d.path in l.anchorsByPath
    ensures SectionAt(docs, d.path, t) <==> t in l.anchorsByPath[d.path]
    ensures PartOf(docs, d, t) <==> t == TargetId(d.id, None) || t in l.anchorsByPath[d.path]
  {
    PathKnown(l, docs, d);
    if SectionAt(docs, d.path, t) {
      var c, k :| c in docs && c.path == d.path && 0 <= k < |c.sections|
               && t == TargetId(c.id, Some(c.sections[k].anchor));
      assert RecordsSection(l, c, k);
    }
    if t in l.anchorsByPath[d.path] {
      SectionNamed(l, docs, d.path, t);
    }
  }

  lemma {:induction false} SectionNamed(l: Lattice, docs: seq<Doc>, path: string, t: TargetId)
    requires Records(l, docs) && t in l.index && !l.index[t].isFile && l.index[t].path == path
    ensures SectionAt(docs, path, t)
  {
    assert Names(docs, t);
    var c :| c in docs && NamedBy(c, t);
    assert RecordsFile(l, c);
    var k :| 0 <= k < |c.sections| && t == TargetId(c.id, Some(c.sections[k].anchor));
    assert RecordsSection(l, c, k);
  }

  lemma {:induction false} DependsAsGiven(l: Lattice, docs: seq<Doc>, d: Doc, t: TargetId)
    requires Consistent(l, docs) && Records(l, docs) && d in docs
    ensures t in l.dependents && d.id in l.dependents[t] <==> Resolves(docs, d, t)
  {
    DerivesAsGiven(l, docs, d, t);
  }

  /** The documents of some nodes. */
  lemma {:induction false} DocsOf(l: Lattice, docs: seq<Doc>, ids: seq<string>) returns (chain: seq<Doc>)
    requires Records(l, docs) && forall i :: 0 <= i < |ids| ==> ids[i] in l.nodesById
    ensures |chain| == |ids| && forall i :: 0 <= i < |ids| ==> chain[i] in docs && chain[i].id == ids[i]
  {
    chain := [];
    for k := 0 to |ids|
      invariant |chain| == k && forall i :: 0 <= i < k ==> chain[i] in docs && chain[i].id == ids[i]
    {
      assert ids[k] in IdsOf(docs);
      var d :| d in docs && d.id == ids[k];
      chain := chain + [d];
    }
  }

  lemma {:induction false} SameStep(l: Lattice, docs: seq<Doc>, start: set<TargetId>, ids: seq<string>,
                                    chain: seq<Doc>, i: nat)
    requires Consistent(l, docs) && Records(l, docs) && Walkable(l) && i < |ids| == |chain|
    requires forall k :: 0 <= k < |ids| ==> chain[k] in docs && chain[k].id == ids[k]
    ensures DerivesAt(l, start, ids, i) <==> FollowsOn(docs, start, chain, i)
  {
    forall t ensures t in l.dependents && ids[i] in l.dependents[t] <==> Resolves(docs, chain[i], t) {
      DependsAsGiven(l, docs, chain[i], t);
    }
    if i > 0 {
      var before := chain[i - 1];
      PartsOf(l, docs, before, TargetId(before.id, None));
      forall t
        ensures PartOf(docs, before, t) <==> t == TargetId(before.id, None) || t in l.anchorsByPath[before.path]
      {
        PartsOf(l, docs, before, t);
      }
    }
  }

  /** A chain of nodes is a chain of their documents. */
  lemma {:induction false} SameChain(l: Lattice, docs: seq<Doc>, start: set<TargetId>, ids: seq<string>,
                                     chain: seq<Doc>)
    requires Consistent(l, docs) && Records(l, docs) && Walkable(l) && |ids| == |chain|
    requires forall k :: 0 <= k < |ids| ==> chain[k] in docs && chain[k].id == ids[k]
    ensures IsChain(l, start, ids) <==> IsDocChain(docs, start, chain)
  {
    forall i | 0 <= i < |ids|
      ensures ids[i] in l.nodesById && (DerivesAt(l, start, ids, i) <==> FollowsOn(docs, start, chain, i))
    {
      SameStep(l, docs, start, ids, chain, i);
      PathKnown(l, docs, chain[i]);
    }
  }

  lemma {:induction false} NodesToDocs(l: Lattice, docs: seq<Doc>, start: set<TargetId>, ids: seq<string>, id: string)
    returns (chain: seq<Doc>)
    requires Consistent(l, docs) && Records(l, docs) && Walkable(l) && Reaches(l, start, ids, id)
    ensures |chain| == |ids| && DocReaches(docs, start, chain, id)
  {
    chain := DocsOf(l, docs, ids);
    SameChain(l, docs, start, ids, chain);
  }

  lemma {:induction false} DocsToNodes(l: Lattice, docs: seq<Doc>, start: set<TargetId>, chain: seq<Doc>, id: string)
    returns (ids: seq<string>)
    requires Consistent(l, docs) && Records(l, docs) && Walkable(l) && DocReaches(docs, start, chain, id)
    ensures |ids| == |chain| && Reaches(l, start, ids, id)
  {
    ids := seq(|chain|, i requires 0 <= i < |chain| => chain[i].id);
    SameChain(l, docs, start, ids, chain);
  }

  /** The shortest distance in a built lattice is the one the documents determine. */
  lemma {:induction false} DistanceFromDocs(l: Lattice, docs: seq<Doc>, start: set<TargetId>, id: string, d: nat)
    requires Consistent(l, docs) && Records(l, docs) && Walkable(l)
    ensures AtDistance(l, start, id, d) <==> DocDistance(docs, start, id, d)
  {
    forall ids | Reaches(l, start, ids, id) ensures SomeDocs(docs, start, id, |ids|) {
      var chain := NodesToDocs(l, docs, start, ids, id);
    }
    forall chain | DocReaches(docs, start, chain, id) ensures SomeNodes(l, start, id, |chain|) {
      var ids := DocsToNodes(l, docs, start, chain, id);
    }
  }

  lemma {:induction false} DepthsFromDocs(l: Lattice, docs: seq<Doc>, start: set<TargetId>, maxDepth: Option<int>,
                                          depths: map<string, nat>)
    requires Consistent(l, docs) && Records(l, docs) && Walkable(l)
    requires ShortestDistances(l, start, maxDepth, depths)
    ensures DocDistances(docs, start, maxDepth, depths)
  {
    forall id, d: nat ensures AtDistance(l, start, id, d) <==> DocDistance(docs, start, id, d) {
      DistanceFromDocs(l, docs, start, id, d);
    }
  }

  ghost predicate SomeDocs(docs: seq<Doc>, start: set<TargetId>, id: string, n: nat)
  {
    exists chain :: |chain| == n && DocReaches(docs, start, chain, id)
  }

  ghost predicate SomeNodes(l: Lattice, start: set<TargetId>, id: string, n: nat)
    requires Walkable(l)
  {
    exists ids :: |ids| == n && Reaches(l, start, ids, id)
  }

  // ---- impact ------------------------------------------------------------------------

  datatype ImpactResult = Affected(depths: map<string, nat>) | UnknownTarget

  /** The nodes a change to the token affects, each at exactly its shortest derives-from distance
      from what the token expands to, and all of those within the bound. */
  method RunImpact(l: Lattice, token: string, maxDepth: Option<int>) returns (r: ImpactResult)
    requires Walkable(l) && Expandable(l)
    ensures r.UnknownTarget? <==> ParseRef(token) !in l.index
    ensures r.Affected? ==> ShortestDistances(l, Expanded(l, token), maxDepth, r.depths)
  {
    if ParseRef(token) !in l.index { return UnknownTarget; }
    var start := ExpandTargets(l, token);
    var depths := Walk(l, start, maxDepth);
    return Affected(depths);
  }

  datatype DocsImpact = NotBuilt(target: TargetId) | Walked(impact: ImpactResult)

  /** Build the lattice of some documents and report what a change to the token affects. */
  method ImpactOf(docs: seq<Doc>, token: string, maxDepth: Option<int>) returns (r: DocsImpact, ghost l: Lattice)
    ensures r.NotBuilt? <==> !DistinctIds(docs)
    ensures r.Walked? ==> (r.impact.UnknownTarget? <==> !Names(docs, ParseRef(token)))
    ensures r.Walked? && r.impact.Affected? ==> DocDistances(docs, Expanded(l, token), maxDepth, r.impact.depths)
    ensures r.NotBuilt? <==> !DistinctTargets(AllRegistrations(docs))
    ensures r.Walked? ==> Consistent(l, docs) && (r.impact.UnknownTarget? <==> ParseRef(token) !in l.index)
    ensures r.Walked? && r.impact.Affected? ==>
      Walkable(l) && ShortestDistances(l, Expanded(l, token), maxDepth, r.impact.depths)
  {
    var building := BuildLattice(docs);
    if building.DuplicateId? {
      r, l := NotBuilt(building.target), *;
      return;
    }
    var lattice := building.lattice;
    ConsistentIsWalkable(lattice, docs);
    ConsistentIsExpandable(lattice, docs);
    var impact := RunImpact(lattice, token, maxDepth);
    r, l := Walked(impact), lattice;
    IndexedAsNamed(lattice, docs, ParseRef(token));
    if impact.Affected? {
      DepthsFromDocs(lattice, docs, Expanded(lattice, token), maxDepth, impact.depths);
    }
  }

  /** The breadth-first walk, from the starts in any order. */
  method Walk(l: Lattice, start: set<TargetId>, maxDepth: Option<int>) returns (affected: map<string, nat>)
    requires Walkable(l)
    ensures ShortestDistances(l, start, maxDepth, affected)
  {
    var queue := Enqueue(start, 0);
    var visited: map<TargetId, nat> := map[];
    ghost var level := 0;
    affected := map[];
    StartWalking(l, start, maxDepth, queue);
    while queue != []
      invariant Walking(l, start, maxDepth, queue, visited, affected)
      invariant Levelled(queue, visited, affected, level) && AllSpread(l, visited, affected, maxDepth)
      invariant affected.Keys <= l.nodesById.Keys
      decreases l.nodesById.Keys - affected.Keys, |queue|
    {
      Popped(l, start, maxDepth, queue, visited, affected, level);
      var current, depth := queue[0].target, queue[0].depth;
      queue, level := queue[1..], depth;
      if current !in visited {
        ghost var before, earlier := affected, visited;
        visited := visited[current := depth];
        if Bounded(depth, maxDepth) {
          queue, affected := Expand(l, start, maxDepth, queue, visited, affected, current, depth);
        }
        SpreadNext(l, earlier, before, affected, current, depth, maxDepth);
      }
    }
    FinishedWalk(l, start, maxDepth, visited, affected);
  }

  lemma {:induction false} SpreadNext(l: Lattice, visited: map<TargetId, nat>, before: map<string, nat>,
                                      now: map<string, nat>, t: TargetId, d: nat, maxDepth: Option<int>)
    requires AllSpread(l, visited, before, maxDepth) && Extends(before, now)
    requires Spread(l, now, t, d, maxDepth)
    ensures AllSpread(l, visited[t := d], now, maxDepth)
  {
    forall u | u in visited && u != t ensures Spread(l, now, u, visited[u], maxDepth) {
      assert Spread(l, before, u, visited[u], maxDepth);
    }
  }

  lemma {:induction false} StartWalking(l: Lattice, start: set<TargetId>, maxDepth: Option<int>, queue: seq<Entry>)
    requires Walkable(l) && Enqueues(queue, start, 0)
    ensures Walking(l, start, maxDepth, queue, map[], map[])
  {
    forall t | t in start ensures Due(queue, map[], t, 0) {
      assert HasTarget(queue, t);
      var i :| 0 <= i < |queue| && queue[i].target == t;
    }
  }

  /** Nodes not yet reported only get fewer, and only then does the queue grow. */
  ghost predicate Progress(l: Lattice, before: map<string, nat>, queue: seq<Entry>, now: map<string, nat>,
                           longer: seq<Entry>)
  {
    || (now == before && longer == queue)
    || l.nodesById.Keys - now.Keys < l.nodesById.Keys - before.Keys
  }

  lemma OneFewer(all: set<string>, before: map<string, nat>, now: map<string, nat>, source: string, d: nat)
    requires source in all && source !in now && Extends(before, now)
    ensures all - now[source := d].Keys < all - now.Keys && Extends(before, now[source := d])
  {
    assert source in all - now.Keys && source !in all - now[source := d].Keys;
  }

  /** Report one node, and queue its targets if the bound allows. */
  method ExpandOne(l: Lattice, ghost start: set<TargetId>, maxDepth: Option<int>, queue: seq<Entry>,
                   ghost visited: map<TargetId, nat>, ghost affected: map<string, nat>, ghost current: TargetId,
                   depth: nat, source: string)
    returns (longer: seq<Entry>)
    requires Walkable(l) && Bounded(depth, maxDepth) && Justified(l, start, current, depth)
    requires Walking(l, start, maxDepth, queue, visited, affected) && Levelled(queue, visited, affected, depth)
    requires source in DependentsAt(l, current) && source !in affected && source in l.nodesById
    ensures Walking(l, start, maxDepth, longer, visited, affected[source := depth + 1])
    ensures Levelled(longer, visited, affected[source := depth + 1], depth)
  {
    var more := [];
    if maxDepth.None? || depth + 1 < maxDepth.value {
      more := Enqueue(TargetsOfNode(l, source), depth + 1);
    }
    Report(l, start, maxDepth, queue, visited, affected, current, depth, source, more);
    ReportLevels(queue, visited, affected, depth, source, more);
    longer := queue + more;
  }

  /** Report every node derived from the target that is not yet reported. */
  method Expand(l: Lattice, ghost start: set<TargetId>, maxDepth: Option<int>, queue: seq<Entry>,
                ghost visited: map<TargetId, nat>, affected: map<string, nat>, current: TargetId, depth: nat)
    returns (longer: seq<Entry>, now: map<string, nat>)
    requires Walkable(l) && Bounded(depth, maxDepth) && Justified(l, start, current, depth)
    requires Walking(l, start, maxDepth, queue, visited, affected) && Levelled(queue, visited, affected, depth)
    requires affected.Keys <= l.nodesById.Keys
    ensures Walking(l, start, maxDepth, longer, visited, now) && Levelled(longer, visited, now, depth)
    ensures now.Keys <= l.nodesById.Keys && Extends(affected, now)
    ensures Progress(l, affected, queue, now, longer)
    ensures Spread(l, now, current, depth, maxDepth)
  {
    longer, now := queue, affected;
    var todo := DependentsAt(l, current);
    while todo != {}
      invariant todo <= DependentsAt(l, current) <= l.nodesById.Keys
      invariant Walking(l, start, maxDepth, longer, visited, now) && Levelled(longer, visited, now, depth)
      invariant now.Keys <= l.nodesById.Keys && Extends(affected, now)
      invariant Progress(l, affected, queue, now, longer)
      invariant ReportedBut(l, now, current, todo, depth)
      decreases todo
    {
      var source :| source in todo;
      OneMoreReported(l, now, current, todo, depth, source);
      todo := todo - {source};
      if source !in now {
        OneFewer(l.nodesById.Keys, affected, now, source, depth + 1);
        longer := ExpandOne(l, start, maxDepth, longer, visited, now, current, depth, source);
        now := now[source := depth + 1];
      }
    }
  }

  /** Every node derived from the target but those in `todo` is reported, one deeper at most. */
  ghost predicate ReportedBut(l: Lattice, now: map<string, nat>, t: TargetId, todo: set<string>, d: nat)
  {
    forall id :: id in DependentsAt(l, t) && id !in todo ==> id in now && now[id] <= d + 1
  }

  lemma OneMoreReported(l: Lattice, now: map<string, nat>, t: TargetId, todo: set<string>, d: nat, source: string)
    requires ReportedBut(l, now, t, todo, d)
    ensures ReportedBut(l, now[source := d + 1], t, todo - {source}, d)
    ensures source in now && now[source] <= d + 1 ==> ReportedBut(l, now, t, todo - {source}, d)
  {
  }

  ghost predicate Extends(before: map<string, nat>, now: map<string, nat>)
  {
    forall id :: id in before ==> id in now && now[id] == before[id]
  }
}
