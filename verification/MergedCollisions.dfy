/** Collision components over both heading inventories, merged by line. */
module MergedCollisions {
  import opened Allocation
  import opened DisjointSets
  import opened Collisions
  import opened Ordering

  datatype CollisionMember = CollisionMember(name: string, line: int)

  /** The collision links, between lines. */
  ghost function LineLinks(inventory: seq<SluggedHeading>): Links
  {
    set p | p in LinksOf(inventory) && p.0 < |inventory| && p.1 < |inventory|
            :: (inventory[p.0].line, inventory[p.1].line)
  }

  /** The collision links of both inventories. */
  ghost function AllLineLinks(full: seq<SluggedHeading>, addressable: seq<SluggedHeading>): Links
  {
    LineLinks(full) + LineLinks(addressable)
  }

  ghost predicate Touches(links: Links, l: nat)
  {
    exists m :: Adjacent(links, l, m)
  }

  // ---- connection carried from one relation to another ---------------------------------

  /** Where every link of one relation is a connection of the other, so is every connection. */
  lemma {:induction false} Coarser(links: Links, more: Links, path: seq<nat>, n: nat)
    requires IsPath(links, path) && n < |path|
    requires forall a, b :: (a, b) in links ==> Connected(more, a, b)
    ensures Connected(more, path[0], path[n])
  {
    Trivially(more, path[0]);
    if n > 0 {
      Coarser(links, more, path, n - 1);
      var a, b := path[n - 1], path[n - 1 + 1];
      assert Adjacent(links, a, b);
      if (b, a) in links { Symmetric(more, b, a); }
      Transitive(more, path[0], a, b);
    }
  }

  lemma SameConnections(links: Links, more: Links, a: nat, b: nat)
    requires forall x, y :: (x, y) in links ==> Connected(more, x, y)
    requires forall x, y :: (x, y) in more ==> Connected(links, x, y)
    ensures Connected(links, a, b) <==> Connected(more, a, b)
  {
    if Connected(links, a, b) {
      var p :| Connects(links, p, a, b);
      Coarser(links, more, p, |p| - 1);
    }
    if Connected(more, a, b) {
      var p :| Connects(more, p, a, b);
      Coarser(more, links, p, |p| - 1);
    }
  }

  lemma LineStep(inventory: seq<SluggedHeading>, a: nat, b: nat)
    requires Adjacent(LinksOf(inventory), a, b)
    ensures a < |inventory| && b < |inventory|
    ensures Adjacent(LineLinks(inventory), inventory[a].line, inventory[b].line)
  {
    var pair := if (a, b) in LinksOf(inventory) then (a, b) else (b, a);
    assert pair in LinksOf(inventory);
    assert (inventory[pair.0].line, inventory[pair.1].line) in LineLinks(inventory);
  }

  lemma LineUnstep(inventory: seq<SluggedHeading>, l: nat, m: nat) returns (a: nat, b: nat)
    requires Adjacent(LineLinks(inventory), l, m)
    ensures a < |inventory| && b < |inventory| && inventory[a].line == l && inventory[b].line == m
    ensures Adjacent(LinksOf(inventory), a, b)
  {
    var pair := if (l, m) in LineLinks(inventory) then (l, m) else (m, l);
    var p: (nat, nat) :| p in LinksOf(inventory) && p.0 < |inventory| && p.1 < |inventory|
                      && (inventory[p.0].line, inventory[p.1].line) == pair;
    a, b := p.0, p.1;
    if (l, m) !in LineLinks(inventory) { a, b := b, a; }
  }

  lemma LinesConnect(inventory: seq<SluggedHeading>, a: nat, b: nat)
    requires a < |inventory| && b < |inventory| && Connected(LinksOf(inventory), a, b)
    ensures Connected(LineLinks(inventory), inventory[a].line, inventory[b].line)
  {
    var p :| Connects(LinksOf(inventory), p, a, b);
    LinesAlong(inventory, p, |p| - 1);
  }

  lemma {:induction false} LinesAlong(inventory: seq<SluggedHeading>, path: seq<nat>, n: nat)
    requires IsPath(LinksOf(inventory), path) && n < |path| && path[0] < |inventory|
    ensures path[n] < |inventory|
    ensures Connected(LineLinks(inventory), inventory[path[0]].line, inventory[path[n]].line)
  {
    var lines := LineLinks(inventory);
    Trivially(lines, inventory[path[0]].line);
    if n > 0 {
      LinesAlong(inventory, path, n - 1);
      var a, b := path[n - 1], path[n - 1 + 1];
      LineStep(inventory, a, b);
      OneStep(lines, inventory[a].line, inventory[b].line);
      Transitive(lines, inventory[path[0]].line, inventory[a].line, inventory[b].line);
    }
  }

  // ---- joining one component -----------------------------------------------------------

  /** The links the merge records: each member of a component to its first. */
  ghost function StarLinks(components: seq<seq<SluggedHeading>>): Links
  {
    set c, k | 0 <= c < |components| && 0 <= k < |components[c]| ::
      (components[c][0].line, components[c][k].line)
  }

  /** The lines of the members of the components. */
  ghost function MemberLines(components: seq<seq<SluggedHeading>>): set<nat>
  {
    set c, k | 0 <= c < |components| && 0 <= k < |components[c]| :: components[c][k].line
  }

  /** A component's star connects exactly the lines the probes connect. */
  lemma StarsConnect(inventory: seq<SluggedHeading>, components: seq<seq<SluggedHeading>>,
                     groups: seq<seq<nat>>)
    requires Picked(components, inventory, groups)
    requires ComponentsOf(groups, |inventory|, LinksOf(inventory))
    ensures forall x, y :: (x, y) in StarLinks(components) ==> Connected(LineLinks(inventory), x, y)
    ensures forall x, y :: (x, y) in LineLinks(inventory) ==> Connected(StarLinks(components), x, y)
  {
    var stars := StarLinks(components);
    forall x, y | (x, y) in stars ensures Connected(LineLinks(inventory), x, y) {
      var c, k :| 0 <= c < |components| && 0 <= k < |components[c]|
               && (components[c][0].line, components[c][k].line) == (x, y);
      var a, b := groups[c][0], groups[c][k];
      assert a in groups[c] && b in groups[c];
      LinesConnect(inventory, a, b);
    }
    forall x, y | (x, y) in LineLinks(inventory) ensures Connected(stars, x, y) {
      var a, b := LineUnstep(inventory, x, y);
      OneStep(LinksOf(inventory), a, b);
      var c := Holding(groups, inventory, a, b);
      assert b in groups[c];
      var i :| 0 <= i < |groups[c]| && groups[c][i] == a;
      var j :| 0 <= j < |groups[c]| && groups[c][j] == b;
      var anchor := components[c][0].line;
      assert components[c][i].line == x && components[c][j].line == y;
      assert (anchor, x) in stars && (anchor, y) in stars;
      OneStep(stars, x, anchor);
      OneStep(stars, anchor, y);
      Transitive(stars, x, anchor, y);
    }
  }

  /** A linked heading is in some component. */
  lemma Holding(groups: seq<seq<nat>>, inventory: seq<SluggedHeading>, a: nat, b: nat) returns (c: nat)
    requires ComponentsOf(groups, |inventory|, LinksOf(inventory)) && Adjacent(LinksOf(inventory), a, b)
    ensures c < |groups| && a in groups[c]
  {
    OneStep(LinksOf(inventory), a, b);
    assert Grouped(groups, a);
    c :| 0 <= c < |groups| && a in groups[c];
  }

  /** The members of the components are the headings some link touches. */
  lemma MembersAreTouched(inventory: seq<SluggedHeading>, components: seq<seq<SluggedHeading>>,
                          groups: seq<seq<nat>>, l: nat)
    requires Picked(components, inventory, groups)
    requires ComponentsOf(groups, |inventory|, LinksOf(inventory)) && l in MemberLines(components)
    ensures Touches(LineLinks(inventory), l)
  {
    var c, k :| 0 <= c < |components| && 0 <= k < |components[c]| && components[c][k].line == l;
    var other := if k == 0 then 1 else 0;
    var a, b := groups[c][k], groups[c][other];
    assert a in groups[c] && b in groups[c];
    assert a != b;
    var p :| Connects(LinksOf(inventory), p, a, b);
    assert Adjacent(LinksOf(inventory), p[0], p[0 + 1]);
    LineStep(inventory, p[0], p[1]);
  }

  lemma TouchedAreMembers(inventory: seq<SluggedHeading>, components: seq<seq<SluggedHeading>>,
                          groups: seq<seq<nat>>, l: nat)
    requires Picked(components, inventory, groups)
    requires ComponentsOf(groups, |inventory|, LinksOf(inventory)) && Touches(LineLinks(inventory), l)
    ensures l in MemberLines(components)
  {
    var m :| Adjacent(LineLinks(inventory), l, m);
    var a, b := LineUnstep(inventory, l, m);
    var c := Holding(groups, inventory, a, b);
    var i :| 0 <= i < |groups[c]| && groups[c][i] == a;
    assert components[c][i].line == l;
  }

  // ---- one union over both inventories -------------------------------------------------

  ghost function StarOf(component: seq<SluggedHeading>, n: nat): Links
    requires n <= |component|
  {
    set k | 0 <= k < n :: (component[0].line, component[k].line)
  }

  ghost function LinesOf(component: seq<SluggedHeading>, n: nat): set<nat>
    requires n <= |component|
  {
    set k | 0 <= k < n :: component[k].line
  }

  predicate Member(components: seq<seq<SluggedHeading>>, h: SluggedHeading)
  {
    exists c :: 0 <= c < |components| && h in components[c]
  }

  /** The first record met for each line is kept. */
  ghost predicate Recorded(before: map<nat, SluggedHeading>, headings: map<nat, SluggedHeading>,
                           components: seq<seq<SluggedHeading>>)
  {
    && before.Keys <= headings.Keys
    && forall l :: l in headings ==>
         if l in before then headings[l] == before[l]
         else headings[l].line == l && Member(components, headings[l])
  }

  lemma OneMoreComponent(components: seq<seq<SluggedHeading>>, c: nat, links: Links, lines: set<nat>)
    requires c < |components|
    ensures links + StarLinks(components[..c + 1])
         == links + StarLinks(components[..c]) + StarOf(components[c], |components[c]|)
    ensures lines + MemberLines(components[..c + 1])
         == lines + MemberLines(components[..c]) + LinesOf(components[c], |components[c]|)
  {
    var now, before := components[..c + 1], components[..c];
    forall p | p in StarLinks(before) ensures p in StarLinks(now) {
      var d, k :| 0 <= d < |before| && 0 <= k < |before[d]| && (before[d][0].line, before[d][k].line) == p;
      assert now[d] == before[d];
    }
    forall p | p in StarOf(components[c], |components[c]|) ensures p in StarLinks(now) {
      assert now[c] == components[c];
    }
    forall l | l in MemberLines(before) ensures l in MemberLines(now) {
      var d, k :| 0 <= d < |before| && 0 <= k < |before[d]| && before[d][k].line == l;
      assert now[d] == before[d];
    }
    forall l | l in LinesOf(components[c], |components[c]|) ensures l in MemberLines(now) {
      assert now[c] == components[c];
    }
  }

  lemma OneMoreMember(component: seq<SluggedHeading>, k: nat, links: Links, lines: set<nat>)
    requires k < |component|
    ensures links + StarOf(component, k + 1) == links + StarOf(component, k) + {(component[0].line, component[k].line)}
    ensures lines + LinesOf(component, k + 1) == lines + LinesOf(component, k) + {component[k].line}
  {
  }

  /** Join one member of a component to its first, recording its heading if its line is new. */
  method JoinMember(heading: SluggedHeading, anchorLine: nat, ghost components: seq<seq<SluggedHeading>>,
                    parent: Parents, headings: map<nat, SluggedHeading>,
                    ghost before: map<nat, SluggedHeading>, ghost root: Parents, ghost links: Links)
    returns (joined: Parents, records: map<nat, SluggedHeading>, ghost newRoot: Parents)
    requires anchorLine == heading.line || anchorLine in parent
    requires Represents(parent, root, links) && parent.Keys == headings.Keys
    requires Recorded(before, headings, components) && Member(components, heading)
    ensures Represents(joined, newRoot, links + {(anchorLine, heading.line)})
    ensures joined.Keys == records.Keys == parent.Keys + {heading.line}
    ensures Recorded(before, records, components)
  {
    joined, records, newRoot := parent, headings, root;
    if heading.line !in records {
      records := records[heading.line := heading];
    }
    if heading.line !in joined {
      Joins(joined, newRoot, links, heading.line);
      joined, newRoot := joined[heading.line := heading.line], newRoot[heading.line := heading.line];
    }
    joined := Union(joined, anchorLine, heading.line, newRoot, links);
    newRoot := Merged(newRoot, anchorLine, heading.line);
  }

  /** Join the members of one component to its first. */
  method JoinComponent(component: seq<SluggedHeading>, ghost components: seq<seq<SluggedHeading>>,
                       parent: Parents, headings: map<nat, SluggedHeading>,
                       ghost before: map<nat, SluggedHeading>, ghost root: Parents, ghost links: Links)
    returns (joined: Parents, records: map<nat, SluggedHeading>, ghost newRoot: Parents)
    requires component != [] && component in components
    requires Represents(parent, root, links) && parent.Keys == headings.Keys
    requires Recorded(before, headings, components)
    ensures Represents(joined, newRoot, links + StarOf(component, |component|))
    ensures joined.Keys == records.Keys == parent.Keys + LinesOf(component, |component|)
    ensures Recorded(before, records, components)
  {
    joined, records, newRoot := parent, headings, root;
    var anchorLine := component[0].line;
    assert links + StarOf(component, 0) == links;
    for k := 0 to |component|
      invariant Represents(joined, newRoot, links + StarOf(component, k))
      invariant joined.Keys == records.Keys == parent.Keys + LinesOf(component, k)
      invariant Recorded(before, records, components)
      invariant k > 0 ==> anchorLine in joined
    {
      assert component[k] in component && Member(components, component[k]);
      OneMoreMember(component, k, links, parent.Keys);
      joined, records, newRoot := JoinMember(component[k], anchorLine, components, joined, records, before,
                                             newRoot, links + StarOf(component, k));
    }
  }

  /** Join every component of one inventory. */
  method JoinComponents(components: seq<seq<SluggedHeading>>, parent: Parents,
                        headings: map<nat, SluggedHeading>, ghost root: Parents, ghost links: Links)
    returns (joined: Parents, records: map<nat, SluggedHeading>, ghost newRoot: Parents)
    requires forall c :: 0 <= c < |components| ==> components[c] != []
    requires Represents(parent, root, links) && parent.Keys == headings.Keys
    ensures Represents(joined, newRoot, links + StarLinks(components))
    ensures joined.Keys == records.Keys == parent.Keys + MemberLines(components)
    ensures Recorded(headings, records, components)
  {
    joined, records, newRoot := parent, headings, root;
    assert links + StarLinks(components[..0]) == links;
    for c := 0 to |components|
      invariant Represents(joined, newRoot, links + StarLinks(components[..c]))
      invariant joined.Keys == records.Keys == parent.Keys + MemberLines(components[..c])
      invariant Recorded(headings, records, components)
    {
      OneMoreComponent(components, c, links, parent.Keys);
      joined, records, newRoot := JoinComponent(components[c], components, joined, records, headings,
                                                newRoot, links + StarLinks(components[..c]));
    }
    assert components[..|components|] == components;
  }

  // ---- reporting by line ---------------------------------------------------------------

  /** `members` lists the headings at `order`, by name and by line of the file. */
  ghost predicate Names(members: seq<CollisionMember>, order: seq<nat>, headings: map<nat, SluggedHeading>,
                        safeName: string -> string, firstLine: int)
  {
    && |members| == |order| && Increasing(order)
    && forall k :: 0 <= k < |order| ==>
         && order[k] in headings
         && members[k] == CollisionMember(safeName(headings[order[k]].text), order[k] + firstLine - 1)
  }

  ghost function Alike(root: Parents, lines: set<nat>, r: nat): set<nat>
  {
    set l | l in lines && l in root && root[l] == r
  }

  ghost predicate NamesClass(members: seq<CollisionMember>, lines: set<nat>, headings: map<nat, SluggedHeading>,
                             safeName: string -> string, firstLine: int)
  {
    exists order :: Names(members, order, headings, safeName, firstLine)
                 && forall l :: l in order <==> l in lines
  }

  lemma SameMembersSameLines(members: seq<CollisionMember>, a: set<nat>, b: set<nat>,
                             headings: map<nat, SluggedHeading>, safeName: string -> string, firstLine: int)
    requires NamesClass(members, a, headings, safeName, firstLine)
    requires NamesClass(members, b, headings, safeName, firstLine)
    ensures a == b
  {
    var p :| Names(members, p, headings, safeName, firstLine) && forall l :: l in p <==> l in a;
    var q :| Names(members, q, headings, safeName, firstLine) && forall l :: l in q <==> l in b;
    forall k | 0 <= k < |p| ensures p[k] == q[k] {
      assert members[k].line == p[k] + firstLine - 1 == q[k] + firstLine - 1;
    }
    assert p == q;
  }

  method GroupLines(parent: Parents, ghost root: Parents) returns (grouped: map<nat, set<nat>>)
    requires Labels(parent, root)
    ensures forall r :: r in grouped <==> Alike(root, parent.Keys, r) != {}
    ensures forall r :: r in grouped ==> grouped[r] == Alike(root, parent.Keys, r)
  {
    var forest, todo := parent, parent.Keys;
    grouped := map[];
    while todo != {}
      invariant Labels(forest, root) && forest.Keys == parent.Keys && todo <= parent.Keys
      invariant forall r :: r in grouped <==> Alike(root, parent.Keys - todo, r) != {}
      invariant forall r :: r in grouped ==> grouped[r] == Alike(root, parent.Keys - todo, r)
      decreases todo
    {
      var l :| l in todo;
      var r;
      r, forest := Find(forest, l, root);
      OneMoreAlike(root, parent.Keys - todo, l);
      assert parent.Keys - (todo - {l}) == parent.Keys - todo + {l};
      grouped := grouped[r := (if r in grouped then grouped[r] else {}) + {l}];
      todo := todo - {l};
    }
    assert parent.Keys - {} == parent.Keys;
  }

  lemma OneMoreAlike(root: Parents, lines: set<nat>, l: nat)
    requires l in root
    ensures forall r :: Alike(root, lines + {l}, r) == Alike(root, lines, r) + if root[l] == r then {l} else {}
    ensures l in Alike(root, lines + {l}, root[l])
  {
  }

  method NameLines(lines: set<nat>, headings: map<nat, SluggedHeading>, safeName: string -> string,
                   firstLine: int)
    returns (members: seq<CollisionMember>)
    requires lines <= headings.Keys
    ensures NamesClass(members, lines, headings, safeName, firstLine)
  {
    var order := Sorted(lines);
    forall k | 0 <= k < |order| ensures order[k] in headings {
      assert order[k] in order;
    }
    members := seq(|order|, k requires 0 <= k < |order| && order[k] in headings =>
      CollisionMember(safeName(headings[order[k]].text), order[k] + firstLine - 1));
    assert Names(members, order, headings, safeName, firstLine);
  }

  /** Every line whose root is no longer to do has the tuple of its class. */
  ghost predicate ReportedBut(found: map<nat, seq<CollisionMember>>, root: Parents, todo: set<nat>,
                              headings: map<nat, SluggedHeading>, safeName: string -> string, firstLine: int)
  {
    && (forall l :: l in found <==> l in root && root[l] !in todo)
    && (forall l :: l in found && l in root ==>
          NamesClass(found[l], Alike(root, root.Keys, root[l]), headings, safeName, firstLine))
    && (forall l, m :: l in found && m in found && l in root && m in root && root[l] == root[m] ==>
          found[l] == found[m])
  }

  lemma NextReported(found: map<nat, seq<CollisionMember>>, root: Parents, todo: set<nat>,
                     headings: map<nat, SluggedHeading>, safeName: string -> string, firstLine: int,
                     r: nat, lines: set<nat>, members: seq<CollisionMember>)
    requires ReportedBut(found, root, todo, headings, safeName, firstLine) && r in todo
    requires lines == Alike(root, root.Keys, r)
    requires NamesClass(members, lines, headings, safeName, firstLine)
    ensures ReportedBut(found + map l | l in lines :: members, root, todo - {r}, headings, safeName, firstLine)
  {
  }

  method ReportLines(grouped: map<nat, set<nat>>, headings: map<nat, SluggedHeading>,
                     safeName: string -> string, firstLine: int, ghost root: Parents)
    returns (found: map<nat, seq<CollisionMember>>)
    requires headings.Keys == root.Keys
    requires forall r :: r in grouped <==> Alike(root, root.Keys, r) != {}
    requires forall r :: r in grouped ==> grouped[r] == Alike(root, root.Keys, r)
    ensures ReportedBut(found, root, {}, headings, safeName, firstLine)
  {
    forall l | l in root ensures root[l] in grouped {
      assert l in Alike(root, root.Keys, root[l]);
    }
    found := map[];
    var todo := grouped.Keys;
    while todo != {}
      invariant todo <= grouped.Keys && ReportedBut(found, root, todo, headings, safeName, firstLine)
      decreases todo
    {
      var r :| r in todo;
      var lines := grouped[r];
      var members := NameLines(lines, headings, safeName, firstLine);
      NextReported(found, root, todo, headings, safeName, firstLine, r, lines, members);
      found := found + map l | l in lines :: members;
      todo := todo - {r};
    }
  }

  // ---- the merge -----------------------------------------------------------------------

  /** The text reported for a line: the full inventory's where that inventory links the line. */
  ghost predicate TextAt(full: seq<SluggedHeading>, addressable: seq<SluggedHeading>, l: nat, text: string)
  {
    if Touches(LineLinks(full), l)
    then exists i :: 0 <= i < |full| && full[i].line == l && full[i].text == text
    else exists i :: 0 <= i < |addressable| && addressable[i].line == l && addressable[i].text == text
  }

  /** `members` lists exactly the lines connected to `l`, in order. */
  ghost predicate Reports(members: seq<CollisionMember>, full: seq<SluggedHeading>,
                          addressable: seq<SluggedHeading>, safeName: string -> string, firstLine: int, l: nat)
  {
    exists order, headings: map<nat, SluggedHeading> :: Names(members, order, headings, safeName, firstLine)
      && (forall m :: m in order <==>
            && Touches(AllLineLinks(full, addressable), m)
            && Connected(AllLineLinks(full, addressable), l, m))
      && (forall m :: m in order && m in headings ==> TextAt(full, addressable, m, headings[m].text))
  }

  /** What collision components and their stars give for one inventory. */
  ghost predicate Explained(inventory: seq<SluggedHeading>, components: seq<seq<SluggedHeading>>)
  {
    && (forall c :: 0 <= c < |components| ==> components[c] != [])
    && (forall x, y :: (x, y) in StarLinks(components) ==> Connected(LineLinks(inventory), x, y))
    && (forall x, y :: (x, y) in LineLinks(inventory) ==> Connected(StarLinks(components), x, y))
    && (forall l :: l in MemberLines(components) <==> Touches(LineLinks(inventory), l))
    && (forall h :: Member(components, h) ==> h in inventory)
  }

  lemma ComponentsExplain(inventory: seq<SluggedHeading>, components: seq<seq<SluggedHeading>>,
                          groups: seq<seq<nat>>)
    requires Picked(components, inventory, groups) && ComponentsOf(groups, |inventory|, LinksOf(inventory))
    ensures Explained(inventory, components)
  {
    StarsConnect(inventory, components, groups);
    forall l: nat ensures l in MemberLines(components) <==> Touches(LineLinks(inventory), l) {
      if l in MemberLines(components) { MembersAreTouched(inventory, components, groups, l); }
      if Touches(LineLinks(inventory), l) { TouchedAreMembers(inventory, components, groups, l); }
    }
    forall h | Member(components, h) ensures h in inventory {
      var c :| 0 <= c < |components| && h in components[c];
      var k :| 0 <= k < |components[c]| && components[c][k] == h;
      assert h == inventory[groups[c][k]];
    }
  }

  /** Both inventories' stars together connect what both relations together connect. */
  lemma UnionExplained(full: seq<SluggedHeading>, fullComponents: seq<seq<SluggedHeading>>,
                       addressable: seq<SluggedHeading>, addressableComponents: seq<seq<SluggedHeading>>,
                       l: nat, m: nat)
    requires Explained(full, fullComponents) && Explained(addressable, addressableComponents)
    ensures Connected(StarLinks(fullComponents) + StarLinks(addressableComponents), l, m)
        <==> Connected(AllLineLinks(full, addressable), l, m)
  {
    var stars, lines := StarLinks(fullComponents) + StarLinks(addressableComponents),
                        AllLineLinks(full, addressable);
    forall x, y | (x, y) in stars ensures Connected(lines, x, y) {
      if (x, y) in StarLinks(fullComponents) {
        Monotone(LineLinks(full), lines, x, y);
      } else {
        Monotone(LineLinks(addressable), lines, x, y);
      }
    }
    forall x, y | (x, y) in lines ensures Connected(stars, x, y) {
      if (x, y) in LineLinks(full) {
        Monotone(StarLinks(fullComponents), stars, x, y);
      } else {
        Monotone(StarLinks(addressableComponents), stars, x, y);
      }
    }
    SameConnections(stars, lines, l, m);
  }

  lemma TouchesEither(a: Links, b: Links, l: nat)
    ensures Touches(a + b, l) <==> Touches(a, l) || Touches(b, l)
  {
    if Touches(a, l) { var m :| Adjacent(a, l, m); assert Adjacent(a + b, l, m); }
    if Touches(b, l) { var m :| Adjacent(b, l, m); assert Adjacent(a + b, l, m); }
    if Touches(a + b, l) {
      var m :| Adjacent(a + b, l, m);
      assert Adjacent(a, l, m) || Adjacent(b, l, m);
    }
  }

  /** The record kept for a line is the one whose text is to be reported. */
  lemma RecordedText(full: seq<SluggedHeading>, fullComponents: seq<seq<SluggedHeading>>,
                     addressable: seq<SluggedHeading>, addressableComponents: seq<seq<SluggedHeading>>,
                     first: map<nat, SluggedHeading>, headings: map<nat, SluggedHeading>, l: nat)
    requires Explained(full, fullComponents) && Explained(addressable, addressableComponents)
    requires Recorded(map[], first, fullComponents) && first.Keys == MemberLines(fullComponents)
    requires Recorded(first, headings, addressableComponents) && l in headings
    ensures TextAt(full, addressable, l, headings[l].text)
  {
    var h := headings[l];
    if l in first {
      assert h == first[l] && h in full;
      var i :| 0 <= i < |full| && full[i] == h;
    } else {
      assert h in addressable;
      var i :| 0 <= i < |addressable| && addressable[i] == h;
    }
  }

  lemma ClassIsReported(members: seq<CollisionMember>, full: seq<SluggedHeading>,
                        addressable: seq<SluggedHeading>, safeName: string -> string, firstLine: int, l: nat,
                        lines: set<nat>, headings: map<nat, SluggedHeading>)
    requires NamesClass(members, lines, headings, safeName, firstLine)
    requires forall m :: m in lines <==>
      && Touches(AllLineLinks(full, addressable), m)
      && Connected(AllLineLinks(full, addressable), l, m)
    requires forall m :: m in headings ==> TextAt(full, addressable, m, headings[m].text)
    ensures Reports(members, full, addressable, safeName, firstLine, l)
  {
    var order :| Names(members, order, headings, safeName, firstLine) && forall m :: m in order <==> m in lines;
  }

  /** The merged forest has exactly the linked lines, one root to a class of both relations. */
  ghost predicate MergesBoth(root: Parents, full: seq<SluggedHeading>, addressable: seq<SluggedHeading>)
  {
    && (forall l :: l in root <==> Touches(AllLineLinks(full, addressable), l))
    && (forall l, m :: l in root && m in root ==>
          (root[l] == root[m] <==> Connected(AllLineLinks(full, addressable), l, m)))
  }

  lemma StarsMergeBoth(parent: Parents, root: Parents,
                       full: seq<SluggedHeading>, fullComponents: seq<seq<SluggedHeading>>,
                       addressable: seq<SluggedHeading>, addressableComponents: seq<seq<SluggedHeading>>)
    requires Explained(full, fullComponents) && Explained(addressable, addressableComponents)
    requires Represents(parent, root, StarLinks(fullComponents) + StarLinks(addressableComponents))
    requires parent.Keys == MemberLines(fullComponents) + MemberLines(addressableComponents)
    ensures MergesBoth(root, full, addressable)
  {
    var lines := AllLineLinks(full, addressable);
    forall l: nat ensures l in root <==> Touches(lines, l) {
      TouchesEither(LineLinks(full), LineLinks(addressable), l);
    }
    forall l, m | l in root && m in root ensures root[l] == root[m] <==> Connected(lines, l, m) {
      UnionExplained(full, fullComponents, addressable, addressableComponents, l, m);
    }
  }

  method ExplainedComponents(inventory: seq<SluggedHeading>)
    returns (components: seq<seq<SluggedHeading>>)
    ensures Explained(inventory, components)
  {
    components := CollisionComponents(inventory);
    ghost var groups :| Picked(components, inventory, groups)
                     && ComponentsOf(groups, |inventory|, LinksOf(inventory));
    ComponentsExplain(inventory, components, groups);
  }

  ghost predicate Texts(headings: map<nat, SluggedHeading>, full: seq<SluggedHeading>,
                        addressable: seq<SluggedHeading>)
  {
    forall l :: l in headings ==> TextAt(full, addressable, l, headings[l].text)
  }

  /** Add the second inventory's components to the first's, whose records win. */
  method MergeSecond(full: seq<SluggedHeading>, ghost fullComponents: seq<seq<SluggedHeading>>,
                     addressable: seq<SluggedHeading>, forest: Parents, records: map<nat, SluggedHeading>,
                     ghost roots: Parents)
    returns (parent: Parents, headings: map<nat, SluggedHeading>, ghost root: Parents)
    requires Explained(full, fullComponents) && Represents(forest, roots, StarLinks(fullComponents))
    requires forest.Keys == records.Keys == MemberLines(fullComponents)
    requires Recorded(map[], records, fullComponents)
    ensures Labels(parent, root) && headings.Keys == parent.Keys
    ensures MergesBoth(root, full, addressable) && Texts(headings, full, addressable)
  {
    var components := ExplainedComponents(addressable);
    parent, headings, root := JoinComponents(components, forest, records, roots, StarLinks(fullComponents));
    StarsMergeBoth(parent, root, full, fullComponents, addressable, components);
    forall l | l in headings ensures TextAt(full, addressable, l, headings[l].text) {
      RecordedText(full, fullComponents, addressable, components, records, headings, l);
    }
  }

  /** Merge the components of both inventories by line, the full inventory's records first. */
  method MergeInventories(full: seq<SluggedHeading>, addressable: seq<SluggedHeading>)
    returns (parent: Parents, headings: map<nat, SluggedHeading>, ghost root: Parents)
    ensures Labels(parent, root) && headings.Keys == parent.Keys
    ensures MergesBoth(root, full, addressable) && Texts(headings, full, addressable)
  {
    var components := ExplainedComponents(full);
    SingletonsRepresentNothing(map[]);
    parent, headings, root := JoinComponents(components, map[], map[], map[], {});
    assert {} + StarLinks(components) == StarLinks(components);
    parent, headings, root := MergeSecond(full, components, addressable, parent, headings, root);
  }

  /** Every line that either inventory links maps to the one tuple of its class under both
      relations together, and two lines map to the same tuple exactly when they are connected. */
  method CollisionMembersByLine(full: seq<SluggedHeading>, addressable: seq<SluggedHeading>,
                                firstLine: int, safeName: string -> string)
    returns (found: map<nat, seq<CollisionMember>>)
    ensures forall l :: l in found <==> Touches(AllLineLinks(full, addressable), l)
    ensures forall l :: l in found ==> Reports(found[l], full, addressable, safeName, firstLine, l)
    ensures forall l, m :: l in found && m in found ==>
      (found[l] == found[m] <==> Connected(AllLineLinks(full, addressable), l, m))
  {
    var parent, headings;
    ghost var root;
    parent, headings, root := MergeInventories(full, addressable);
    var grouped := GroupLines(parent, root);
    found := ReportLines(grouped, headings, safeName, firstLine, root);
    ghost var lines := AllLineLinks(full, addressable);
    forall l | l in found ensures Reports(found[l], full, addressable, safeName, firstLine, l) {
      ClassIsReported(found[l], full, addressable, safeName, firstLine, l,
                      Alike(root, root.Keys, root[l]), headings);
    }
    forall l, m | l in found && m in found && found[l] == found[m] ensures Connected(lines, l, m) {
      SameMembersSameLines(found[l], Alike(root, root.Keys, root[l]), Alike(root, root.Keys, root[m]),
                           headings, safeName, firstLine);
      assert l in Alike(root, root.Keys, root[m]);
    }
  }

  // ---- soundness of the merged classes ---------------------------------------------------

  lemma LinkedLines(full: seq<SluggedHeading>, addressable: seq<SluggedHeading>, inventory: seq<SluggedHeading>,
                    slugOf: string -> string, a: nat, b: nat)
    requires inventory in [full, addressable] && Traced(inventory, slugOf) && Linked(inventory, a, b)
    ensures Adjacent(AllLineLinks(full, addressable), inventory[a].line, inventory[b].line)
  {
    TracedLinks(inventory, slugOf, a, b);
    LineStep(inventory, a, b);
  }

  /** Deleting headings on the lines of one merged class changes no id outside it, in either
      inventory: a label names every heading whose deletion can move it. */
  lemma MergedClassShieldsOthers(full: seq<SluggedHeading>, addressable: seq<SluggedHeading>,
                                 inventory: seq<SluggedHeading>, slugOf: string -> string, l: nat,
                                 deleted: set<nat>, h: nat)
    requires inventory in [full, addressable] && Traced(inventory, slugOf) && h < |inventory|
    requires forall d :: d in deleted ==>
      d < |inventory| && Connected(AllLineLinks(full, addressable), l, inventory[d].line)
    requires !Connected(AllLineLinks(full, addressable), l, inventory[h].line)
    ensures var bases := BasesOf(inventory, slugOf);
      var ids, at := NaiveIds(Without(bases, deleted, |bases|)), |Without(bases, deleted, h)|;
      at < |ids| && ids[at] == inventory[h].githubId
  {
    var more := AllLineLinks(full, addressable);
    var c := set a: nat | a < |inventory| && Connected(more, l, inventory[a].line);
    forall a: nat, b: nat | Linked(inventory, a, b) ensures a in c <==> b in c {
      LinkedLines(full, addressable, inventory, slugOf, a, b);
      OneStep(more, inventory[a].line, inventory[b].line);
      Symmetric(more, inventory[a].line, inventory[b].line);
      ConnectedAlike(more, l, inventory[a].line, inventory[b].line);
    }
    DeletionKeepsOtherComponents(inventory, slugOf, c, deleted, h);
  }

  lemma ConnectedAlike(more: Links, l: nat, x: nat, y: nat)
    requires Connected(more, x, y) && Connected(more, y, x)
    ensures Connected(more, l, x) <==> Connected(more, l, y)
  {
    if Connected(more, l, x) { Transitive(more, l, x, y); }
    if Connected(more, l, y) { Transitive(more, l, y, x); }
  }

  /** A heading on a line nothing reports keeps its base slug, whatever else is deleted. */
  lemma UnreportedNeverMoves(full: seq<SluggedHeading>, addressable: seq<SluggedHeading>,
                             inventory: seq<SluggedHeading>, slugOf: string -> string, deleted: set<nat>, h: nat)
    requires inventory in [full, addressable] && Traced(inventory, slugOf) && h < |inventory|
    requires !Touches(AllLineLinks(full, addressable), inventory[h].line)
    requires h !in deleted && forall d :: d in deleted ==> d < |inventory|
    ensures var bases := BasesOf(inventory, slugOf);
      var ids, at := NaiveIds(Without(bases, deleted, |bases|)), |Without(bases, deleted, h)|;
      at < |ids| && ids[at] == inventory[h].githubId == bases[h]
  {
    forall g: nat ensures !Linked(inventory, h, g) && !Linked(inventory, g, h) {
      if Linked(inventory, h, g) {
        LinkedLines(full, addressable, inventory, slugOf, h, g);
        assert Touches(AllLineLinks(full, addressable), inventory[h].line);
      }
      if Linked(inventory, g, h) {
        LinkedLines(full, addressable, inventory, slugOf, g, h);
        assert Adjacent(AllLineLinks(full, addressable), inventory[h].line, inventory[g].line);
      }
    }
    UnlinkedSurvivesAnyDeletion(inventory, slugOf, deleted, h);
  }
}
