/** Collision components: the headings whose ids move together. */
module Collisions {
  import opened Allocation
  import opened DisjointSets
  import opened Ordering

  // ---- the relation ------------------------------------------------------------------

  /** Heading `a` examined an id that heading `b` held when `a` was slugged. */
  predicate Probed(inventory: seq<SluggedHeading>, a: nat, b: nat)
  {
    && Linked(inventory, a, b)
    && forall k :: b < k < a ==> inventory[k].githubId != inventory[b].githubId
  }

  ghost function LinksOf(inventory: seq<SluggedHeading>): Links
  {
    set a, b | 0 <= a < |inventory| && 0 <= b < |inventory| && Probed(inventory, a, b) :: (a, b)
  }

  /** Where ids are distinct the last holder is the only one. */
  lemma TracedLinks(inventory: seq<SluggedHeading>, slugOf: string -> string, a: nat, b: nat)
    requires Traced(inventory, slugOf)
    ensures Linked(inventory, a, b) <==> (a, b) in LinksOf(inventory)
  {
    TraceIsDistinct(inventory, slugOf);
  }

  /** `groups` lists exactly the classes of more than one of the first `n` nodes, each in
      order, ordered by their first members. */
  ghost predicate ComponentsOf(groups: seq<seq<nat>>, n: nat, links: Links)
  {
    && (forall c :: 0 <= c < |groups| ==> |groups[c]| > 1 && Increasing(groups[c]))
    && (forall c, a :: 0 <= c < |groups| && a in groups[c] ==>
          a < n && forall b :: 0 <= b < n ==> (b in groups[c] <==> Connected(links, a, b)))
    && (forall a, b :: 0 <= a < n && 0 <= b < n && a != b && Connected(links, a, b) ==> Grouped(groups, a))
    && (forall c, d :: 0 <= c < d < |groups| ==> groups[c][0] < groups[d][0])
  }

  predicate Grouped(groups: seq<seq<nat>>, a: nat)
  {
    exists c :: 0 <= c < |groups| && a in groups[c]
  }

  // ---- grouping by root --------------------------------------------------------------

  /** The nodes before the n-th that carry the root `r`, in order. */
  function Bucket(root: Parents, r: nat, n: nat): seq<nat>
  {
    if n == 0 then []
    else Bucket(root, r, n - 1) + if n - 1 in root && root[n - 1] == r then [n - 1] else []
  }

  lemma {:induction false} BucketIs(root: Parents, r: nat, n: nat)
    ensures Increasing(Bucket(root, r, n))
    ensures forall a :: a in Bucket(root, r, n) <==> a < n && a in root && root[a] == r
  {
    if n > 0 {
      BucketIs(root, r, n - 1);
      var before := Bucket(root, r, n - 1);
      assert forall i :: 0 <= i < |before| ==> before[i] in before;
    }
  }

  /** The buckets of more than one node whose roots are below `m`, in order of root. */
  function Buckets(root: Parents, n: nat, m: nat): seq<seq<nat>>
  {
    if m == 0 then []
    else
      var last := Bucket(root, m - 1, n);
      Buckets(root, n, m - 1) + if |last| > 1 then [last] else []
  }

  lemma {:induction false} BucketsHold(root: Parents, n: nat, m: nat, r: nat)
    requires r < m && |Bucket(root, r, n)| > 1
    ensures Bucket(root, r, n) in Buckets(root, n, m)
  {
    if r < m - 1 {
      BucketsHold(root, n, m - 1, r);
    }
  }

  lemma {:induction false} BucketsAre(parent: Parents, root: Parents, links: Links, n: nat, m: nat)
    requires Represents(parent, root, links) && parent.Keys == Indices(n)
    ensures forall c :: 0 <= c < |Buckets(root, n, m)| ==>
      && |Buckets(root, n, m)[c]| > 1 && Buckets(root, n, m)[c][0] < m
      && Buckets(root, n, m)[c] == Bucket(root, Buckets(root, n, m)[c][0], n)
    ensures forall c, d :: 0 <= c < d < |Buckets(root, n, m)| ==>
      Buckets(root, n, m)[c][0] < Buckets(root, n, m)[d][0]
  {
    if m > 0 {
      BucketsAre(parent, root, links, n, m - 1);
      var r, last := m - 1, Bucket(root, m - 1, n);
      if |last| > 1 {
        BucketIs(root, r, n);
        assert LabelledAt(parent, root, last[0]) && root[last[0]] == r;
        assert r in last;
        assert last[0] == r;
      }
    }
  }

  lemma BucketsAreComponents(parent: Parents, root: Parents, links: Links, n: nat)
    requires Represents(parent, root, links) && parent.Keys == Indices(n)
    ensures ComponentsOf(Buckets(root, n, n), n, links)
  {
    var groups := Buckets(root, n, n);
    BucketsAre(parent, root, links, n, n);
    forall c | 0 <= c < |groups| ensures Increasing(groups[c]) {
      BucketIs(root, groups[c][0], n);
    }
    forall c, a | 0 <= c < |groups| && a in groups[c]
      ensures a < n && forall b :: 0 <= b < n ==> (b in groups[c] <==> Connected(links, a, b))
    {
      BucketIs(root, groups[c][0], n);
    }
    forall a, b | 0 <= a < n && 0 <= b < n && a != b && Connected(links, a, b) ensures Grouped(groups, a) {
      assert LabelledAt(parent, root, a);
      BucketIs(root, root[a], n);
      var bucket := Bucket(root, root[a], n);
      assert a in bucket && b in bucket;
      BucketsHold(root, n, n, root[a]);
    }
  }

  // ---- the method --------------------------------------------------------------------

  /** `holder` names the latest heading before the n-th that has each id. */
  ghost predicate Holds(holder: map<string, nat>, inventory: seq<SluggedHeading>, n: nat)
    requires n <= |inventory|
  {
    && (forall id :: id in holder ==>
          && holder[id] < n && inventory[holder[id]].githubId == id
          && forall k :: holder[id] < k < n ==> inventory[k].githubId != id)
    && (forall g :: 0 <= g < n ==> inventory[g].githubId in holder)
  }

  /** The links of the headings before the i-th, and of the first `p` probes of the i-th. */
  ghost predicate LinksSoFar(links: Links, inventory: seq<SluggedHeading>, holder: map<string, nat>,
                             i: nat, p: nat)
  {
    forall a: nat, b: nat :: (a, b) in links <==>
      || (a < i && Probed(inventory, a, b))
      || (a == i && i < |inventory| && LinkedByProbe(inventory[i].probes, holder, p, b))
  }

  ghost predicate LinkedByProbe(probes: seq<string>, holder: map<string, nat>, p: nat, b: nat)
  {
    exists q :: 0 <= q < p && q < |probes| && probes[q] in holder && holder[probes[q]] == b
  }

  lemma NextProbe(links: Links, inventory: seq<SluggedHeading>, holder: map<string, nat>, i: nat, p: nat)
    requires i < |inventory| && p < |inventory[i].probes| && LinksSoFar(links, inventory, holder, i, p)
    ensures var probe := inventory[i].probes[p];
      LinksSoFar(if probe in holder then links + {(i, holder[probe])} else links, inventory, holder, i, p + 1)
  {
  }

  lemma NextHeading(links: Links, inventory: seq<SluggedHeading>, holder: map<string, nat>, i: nat)
    requires i < |inventory| && Holds(holder, inventory, i)
    requires LinksSoFar(links, inventory, holder, i, |inventory[i].probes|)
    ensures Holds(holder[inventory[i].githubId := i], inventory, i + 1)
    ensures LinksSoFar(links, inventory, holder[inventory[i].githubId := i], i + 1, 0)
  {
    var probes := inventory[i].probes;
    forall b: nat ensures LinkedByProbe(probes, holder, |probes|, b) <==> Probed(inventory, i, b) {
      if Probed(inventory, i, b) {
        var q :| 0 <= q < |probes| && probes[q] == inventory[b].githubId;
        assert holder[probes[q]] == b;
      }
    }
  }

  lemma AllLinks(links: Links, inventory: seq<SluggedHeading>, holder: map<string, nat>)
    requires LinksSoFar(links, inventory, holder, |inventory|, 0)
    ensures links == LinksOf(inventory)
  {
    forall p: (nat, nat) ensures p in links <==> p in LinksOf(inventory) {
      var (a, b) := p;
      assert (a, b) in links <==> Probed(inventory, a, b);
    }
  }

  function Pick(inventory: seq<SluggedHeading>, group: seq<nat>): (r: seq<SluggedHeading>)
    requires forall k :: 0 <= k < |group| ==> group[k] < |inventory|
    ensures |r| == |group|
  {
    seq(|group|, k requires 0 <= k < |group| => inventory[group[k]])
  }

  predicate Picked(components: seq<seq<SluggedHeading>>, inventory: seq<SluggedHeading>,
                   groups: seq<seq<nat>>)
  {
    && |components| == |groups|
    && forall c :: 0 <= c < |groups| ==>
         && (forall k :: 0 <= k < |groups[c]| ==> groups[c][k] < |inventory|)
         && components[c] == Pick(inventory, groups[c])
  }

  /** Join one heading to the holder of each id it examined. */
  method JoinHeading(inventory: seq<SluggedHeading>, i: nat, holder: map<string, nat>, parent: Parents,
                     ghost root: Parents, ghost links: Links)
    returns (joined: Parents, ghost newRoot: Parents, ghost more: Links)
    requires i < |inventory| && Holds(holder, inventory, i) && LinksSoFar(links, inventory, holder, i, 0)
    requires Represents(parent, root, links) && parent.Keys == Indices(|inventory|)
    ensures Represents(joined, newRoot, more) && joined.Keys == parent.Keys
    ensures LinksSoFar(more, inventory, holder, i, |inventory[i].probes|)
  {
    var probes := inventory[i].probes;
    joined, newRoot, more := parent, root, links;
    for p := 0 to |probes|
      invariant Represents(joined, newRoot, more) && joined.Keys == parent.Keys
      invariant LinksSoFar(more, inventory, holder, i, p)
    {
      NextProbe(more, inventory, holder, i, p);
      if probes[p] in holder {
        joined := Union(joined, i, holder[probes[p]], newRoot, more);
        newRoot := Merged(newRoot, i, holder[probes[p]]);
        more := more + {(i, holder[probes[p]])};
      }
    }
  }

  /** Join every heading to the holder of each id it examined. */
  method JoinProbes(inventory: seq<SluggedHeading>) returns (parent: Parents, ghost root: Parents)
    ensures Represents(parent, root, LinksOf(inventory)) && parent.Keys == Indices(|inventory|)
  {
    parent := map i | i in Indices(|inventory|) :: i;
    root := parent;
    ghost var links: Links := {};
    SingletonsRepresentNothing(parent);
    var holder: map<string, nat> := map[];
    for i := 0 to |inventory|
      invariant Represents(parent, root, links) && parent.Keys == Indices(|inventory|)
      invariant Holds(holder, inventory, i)
      invariant LinksSoFar(links, inventory, holder, i, 0)
    {
      parent, root, links := JoinHeading(inventory, i, holder, parent, root, links);
      NextHeading(links, inventory, holder, i);
      holder := holder[inventory[i].githubId := i];
    }
    AllLinks(links, inventory, holder);
  }

  ghost predicate GroupedSoFar(grouped: map<nat, seq<nat>>, root: Parents, i: nat)
  {
    forall r {:trigger Bucket(root, r, i)} ::
      && (r in grouped <==> Bucket(root, r, i) != [])
      && (r in grouped ==> grouped[r] == Bucket(root, r, i))
  }

  method GroupByRoot(n: nat, parent: Parents, ghost root: Parents) returns (grouped: map<nat, seq<nat>>)
    requires Labels(parent, root) && parent.Keys == Indices(n)
    ensures GroupedSoFar(grouped, root, n)
  {
    var forest := parent;
    grouped := map[];
    for i := 0 to n
      invariant Labels(forest, root) && forest.Keys == parent.Keys
      invariant GroupedSoFar(grouped, root, i)
    {
      var r;
      r, forest := Find(forest, i, root);
      var earlier := if r in grouped then grouped[r] else [];
      NextGrouped(grouped, root, i);
      grouped := grouped[r := earlier + [i]];
    }
  }

  lemma NextGrouped(grouped: map<nat, seq<nat>>, root: Parents, i: nat)
    requires GroupedSoFar(grouped, root, i) && i in root
    ensures var earlier := if root[i] in grouped then grouped[root[i]] else [];
      GroupedSoFar(grouped[root[i] := earlier + [i]], root, i + 1)
  {
    var earlier := if root[i] in grouped then grouped[root[i]] else [];
    var now := grouped[root[i] := earlier + [i]];
    forall r: nat
      ensures r in now <==> Bucket(root, r, i + 1) != []
      ensures r in now ==> now[r] == Bucket(root, r, i + 1)
    {
      var before := Bucket(root, r, i);
      assert Bucket(root, r, i + 1) == before + if root[i] == r then [i] else [];
    }
  }

  /** The groups of more than one heading, in order of root. */
  method ReportGroups(inventory: seq<SluggedHeading>, grouped: map<nat, seq<nat>>, ghost root: Parents)
    returns (components: seq<seq<SluggedHeading>>)
    requires GroupedSoFar(grouped, root, |inventory|)
    ensures Picked(components, inventory, Buckets(root, |inventory|, |inventory|))
  {
    components := [];
    for r := 0 to |inventory|
      invariant Picked(components, inventory, Buckets(root, |inventory|, r))
    {
      BucketIs(root, r, |inventory|);
      if r in grouped && |grouped[r]| > 1 {
        forall k | 0 <= k < |grouped[r]| ensures grouped[r][k] < |inventory| {
          assert grouped[r][k] in grouped[r];
        }
        components := components + [Pick(inventory, grouped[r])];
      }
    }
  }

  /** The components are exactly the classes of more than one heading under "examined an id held
      by", members and components in document order. */
  ghost predicate AreComponents(components: seq<seq<SluggedHeading>>, inventory: seq<SluggedHeading>)
  {
    exists groups :: Picked(components, inventory, groups)
                  && ComponentsOf(groups, |inventory|, LinksOf(inventory))
  }

  /** The collision components of an allocation trace. */
  method CollisionComponents(inventory: seq<SluggedHeading>) returns (components: seq<seq<SluggedHeading>>)
    ensures AreComponents(components, inventory)
  {
    var n := |inventory|;
    var parent;
    ghost var root;
    parent, root := JoinProbes(inventory);
    BucketsAreComponents(parent, root, LinksOf(inventory), n);
    var grouped := GroupByRoot(n, parent, root);
    components := ReportGroups(inventory, grouped, root);
    assert Picked(components, inventory, Buckets(root, n, n));
  }

  // ---- soundness of "ids that move together" ------------------------------------------

  /** Deleting members of one component never changes an id outside it. */
  lemma ComponentShieldsOthers(inventory: seq<SluggedHeading>, slugOf: string -> string,
                               groups: seq<seq<nat>>, c: nat, deleted: set<nat>, h: nat)
    requires Traced(inventory, slugOf) && ComponentsOf(groups, |inventory|, LinksOf(inventory))
    requires c < |groups| && h < |inventory| && h !in groups[c]
    requires forall d :: d in deleted ==> d in groups[c]
    ensures var bases := BasesOf(inventory, slugOf);
      var ids, at := NaiveIds(Without(bases, deleted, |bases|)), |Without(bases, deleted, h)|;
      at < |ids| && ids[at] == inventory[h].githubId
  {
    var group := set a | a in groups[c];
    forall a, b | Linked(inventory, a, b) ensures a in group <==> b in group {
      TracedLinks(inventory, slugOf, a, b);
      OneStep(LinksOf(inventory), a, b);
      Symmetric(LinksOf(inventory), a, b);
    }
    DeletionKeepsOtherComponents(inventory, slugOf, group, deleted, h);
  }

  /** A heading in no component keeps exactly its base slug, whatever else is deleted. */
  lemma UngroupedNeverMoves(inventory: seq<SluggedHeading>, slugOf: string -> string,
                            groups: seq<seq<nat>>, deleted: set<nat>, h: nat)
    requires Traced(inventory, slugOf) && ComponentsOf(groups, |inventory|, LinksOf(inventory))
    requires h < |inventory| && !Grouped(groups, h)
    requires h !in deleted && forall d :: d in deleted ==> d < |inventory|
    ensures var bases := BasesOf(inventory, slugOf);
      var ids, at := NaiveIds(Without(bases, deleted, |bases|)), |Without(bases, deleted, h)|;
      at < |ids| && ids[at] == inventory[h].githubId == bases[h]
  {
    forall g: nat ensures !Linked(inventory, h, g) && !Linked(inventory, g, h) {
      TracedLinks(inventory, slugOf, h, g);
      TracedLinks(inventory, slugOf, g, h);
      if Linked(inventory, h, g) { OneStep(LinksOf(inventory), h, g); }
      if Linked(inventory, g, h) { OneStep(LinksOf(inventory), h, g); }
    }
    UnlinkedSurvivesAnyDeletion(inventory, slugOf, deleted, h);
  }

  /** Headings with equal base slugs are reported in the same component. */
  lemma EqualBasesAreGrouped(inventory: seq<SluggedHeading>, slugOf: string -> string,
                             groups: seq<seq<nat>>, a: nat, b: nat)
    requires Traced(inventory, slugOf) && ComponentsOf(groups, |inventory|, LinksOf(inventory))
    requires a < b < |inventory| && slugOf(inventory[a].text) == slugOf(inventory[b].text)
    ensures exists c :: 0 <= c < |groups| && a in groups[c] && b in groups[c]
  {
    var links := LinksOf(inventory);
    var together := set x | x in Indices(|inventory|) && Connected(links, a, x);
    forall x, y | Linked(inventory, x, y) ensures x in together <==> y in together {
      TracedLinks(inventory, slugOf, x, y);
      OneStep(links, x, y);
      OneStep(links, y, x);
      if x in together { Transitive(links, a, x, y); }
      if y in together { Transitive(links, a, y, x); }
    }
    Trivially(links, a);
    SameBaseSameComponent(inventory, slugOf, together, a, b);
    assert Grouped(groups, a);
  }
}
