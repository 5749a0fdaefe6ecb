/** The disjoint-set forest both collision traces are merged with: the smaller root always
    wins, and finding halves the path it follows. */
module DisjointSets {

  type Parents = map<nat, nat>

  /** A pair of connected nodes, in either direction. */
  type Links = set<(nat, nat)>

  /** Following parents from `x` leads down to the root `x` is labelled with. */
  ghost predicate LabelledAt(parent: Parents, root: Parents, x: nat)
    requires root.Keys == parent.Keys && x in parent
  {
    && parent[x] in parent && parent[x] <= x
    && root[x] in parent && root[x] <= x
    && root[parent[x]] == root[x] && (parent[x] == x ==> root[x] == x)
    && root[root[x]] == root[x] && parent[root[x]] == root[x]
  }

  /** `root` labels every node of the forest with the root its parents lead to. Parents never
      exceed their children, so following them ends. */
  ghost predicate Labels(parent: Parents, root: Parents)
  {
    && root.Keys == parent.Keys
    && forall x {:trigger LabelledAt(parent, root, x)} :: x in parent ==> LabelledAt(parent, root, x)
  }

  // ---- connection --------------------------------------------------------------------

  ghost predicate Adjacent(links: Links, a: nat, b: nat)
  {
    (a, b) in links || (b, a) in links
  }

  ghost predicate IsPath(links: Links, path: seq<nat>)
  {
    path != [] && forall i :: 0 <= i < |path| - 1 ==> Adjacent(links, path[i], path[i + 1])
  }

  ghost predicate Connects(links: Links, path: seq<nat>, a: nat, b: nat)
  {
    IsPath(links, path) && path[0] == a && path[|path| - 1] == b
  }

  ghost predicate Connected(links: Links, a: nat, b: nat)
  {
    exists path :: Connects(links, path, a, b)
  }

  lemma Trivially(links: Links, a: nat)
    ensures Connected(links, a, a)
  {
    assert Connects(links, [a], a, a);
  }

  lemma OneStep(links: Links, a: nat, b: nat)
    requires Adjacent(links, a, b)
    ensures Connected(links, a, b)
  {
    assert Connects(links, [a, b], a, b);
  }

  lemma Transitive(links: Links, a: nat, b: nat, c: nat)
    requires Connected(links, a, b) && Connected(links, b, c)
    ensures Connected(links, a, c)
  {
    var p :| Connects(links, p, a, b);
    var q :| Connects(links, q, b, c);
    var path := p + q[1..];
    assert q[0] == b;
    forall i | 0 <= i < |path| - 1 ensures Adjacent(links, path[i], path[i + 1]) {
      if i >= |p| - 1 {
        assert path[i] == q[i - (|p| - 1)] && path[i + 1] == q[i + 1 - (|p| - 1)];
      }
    }
    assert Connects(links, path, a, c);
  }

  lemma Monotone(links: Links, more: Links, a: nat, b: nat)
    requires Connected(links, a, b) && links <= more
    ensures Connected(more, a, b)
  {
    var p :| Connects(links, p, a, b);
    assert Connects(more, p, a, b);
  }

  lemma {:induction false} Symmetric(links: Links, a: nat, b: nat)
    requires Connected(links, a, b)
    ensures Connected(links, b, a)
  {
    var p :| Connects(links, p, a, b);
    var q := seq(|p|, i requires 0 <= i < |p| => p[|p| - 1 - i]);
    forall i | 0 <= i < |q| - 1 ensures Adjacent(links, q[i], q[i + 1]) {
      assert Adjacent(links, p[|p| - 2 - i], p[|p| - 2 - i + 1]);
    }
    assert Connects(links, q, b, a);
  }

  // ---- the forest represents the links ------------------------------------------------

  /** Two nodes have the same root exactly when the links connect them. */
  ghost predicate Represents(parent: Parents, root: Parents, links: Links)
  {
    && Labels(parent, root)
    && (forall a, b :: (a, b) in links ==> a in parent && b in parent)
    && (forall a, b {:trigger Connected(links, a, b)} ::
          a in root && b in root ==> (root[a] == root[b] <==> Connected(links, a, b)))
  }

  /** A root is the least node of its component, and in it. */
  lemma RootIsLeast(parent: Parents, root: Parents, links: Links, a: nat)
    requires Represents(parent, root, links) && a in parent
    ensures Connected(links, a, root[a])
    ensures forall b :: b in parent && Connected(links, a, b) ==> root[a] <= b
  {
    assert LabelledAt(parent, root, a) && root[root[a]] == root[a];
    forall b | b in parent && Connected(links, a, b) ensures root[a] <= b {
      assert LabelledAt(parent, root, b) && root[a] == root[b];
    }
  }

  /** Skipping a parent keeps every label. */
  lemma Halve(parent: Parents, root: Parents, x: nat)
    requires Labels(parent, root) && x in parent && parent[x] in parent
    ensures parent[parent[x]] in parent && parent[parent[x]] <= parent[x] <= x
    ensures root[parent[parent[x]]] == root[x]
    ensures parent[x] == x ==> root[x] == x
    ensures Labels(parent[x := parent[parent[x]]], root)
  {
    assert LabelledAt(parent, root, x) && LabelledAt(parent, root, parent[x]);
    var halved := parent[x := parent[parent[x]]];
    forall y | y in halved ensures LabelledAt(halved, root, y) {
      assert LabelledAt(parent, root, y);
    }
  }

  method Find(parent: Parents, x: nat, ghost root: Parents) returns (r: nat, halved: Parents)
    requires Labels(parent, root) && x in parent
    ensures Labels(halved, root) && halved.Keys == parent.Keys && r == root[x]
  {
    halved, r := parent, x;
    assert LabelledAt(parent, root, x);
    while halved[r] != r
      invariant halved.Keys == parent.Keys && Labels(halved, root)
      invariant r in halved && halved[r] in halved && root[r] == root[x]
      invariant halved[r] == r ==> root[r] == r
      invariant halved[r] <= r
      decreases r
    {
      Halve(halved, root, r);
      halved := halved[r := halved[halved[r]]];
      r := halved[r];
      assert LabelledAt(halved, root, r);
    }
  }

  /** The labels once the smaller root has taken the larger one's nodes. */
  ghost function Relabeled(root: Parents, lo: nat, hi: nat): Parents
  {
    map x | x in root :: if root[x] == hi then lo else root[x]
  }

  ghost function Merged(root: Parents, a: nat, b: nat): Parents
    requires a in root && b in root
  {
    var left, right := root[a], root[b];
    if left < right then Relabeled(root, left, right) else Relabeled(root, right, left)
  }

  /** Hanging one root under a smaller one labels both trees with the smaller. */
  lemma Hang(parent: Parents, root: Parents, lo: nat, hi: nat)
    requires Labels(parent, root) && lo in parent && hi in parent && lo < hi
    requires root[lo] == lo && root[hi] == hi
    ensures Labels(parent[hi := lo], Relabeled(root, lo, hi))
  {
    var hung, now := parent[hi := lo], Relabeled(root, lo, hi);
    assert LabelledAt(parent, root, lo) && LabelledAt(parent, root, hi);
    forall y | y in hung ensures LabelledAt(hung, now, y) {
      assert LabelledAt(parent, root, y);
    }
  }

  /** Link two nodes: the larger root goes under the smaller. */
  method Union(parent: Parents, a: nat, b: nat, ghost root: Parents, ghost links: Links)
    returns (joined: Parents)
    requires Represents(parent, root, links) && a in parent && b in parent
    ensures Represents(joined, Merged(root, a, b), links + {(a, b)}) && joined.Keys == parent.Keys
  {
    var left, right;
    left, joined := Find(parent, a, root);
    right, joined := Find(joined, b, root);
    assert LabelledAt(joined, root, a) && LabelledAt(joined, root, b);
    MergedConnects(root, a, b, links);
    if left < right {
      Hang(joined, root, left, right);
      joined := joined[right := left];
    } else if right < left {
      Hang(joined, root, right, left);
      joined := joined[left := right];
    } else {
      assert Merged(root, a, b) == root;
    }
  }

  lemma MergedConnects(root: Parents, a: nat, b: nat, links: Links)
    requires a in root && b in root
    requires forall x, y :: (x, y) in links ==> x in root && y in root
    requires forall x, y {:trigger Connected(links, x, y)} ::
      x in root && y in root ==> (root[x] == root[y] <==> Connected(links, x, y))
    ensures var now, more := Merged(root, a, b), links + {(a, b)};
      forall x, y {:trigger Connected(more, x, y)} ::
        x in now && y in now ==> (now[x] == now[y] <==> Connected(more, x, y))
  {
    var now, more := Merged(root, a, b), links + {(a, b)};
    OneStep(more, a, b);
    forall x, y | x in now && y in now ensures now[x] == now[y] <==> Connected(more, x, y) {
      if now[x] == now[y] {
        if root[x] == root[y] {
          Monotone(links, more, x, y);
        } else if root[x] == root[a] {
          Bridge(links, more, x, a, b, y);
        } else {
          Bridge(links, more, y, a, b, x);
          Symmetric(more, y, x);
        }
      }
      if Connected(more, x, y) {
        var p :| Connects(more, p, x, y);
        forall y, z | Adjacent(more, y, z) ensures y in now && z in now && now[y] == now[z] {
          if (y, z) in links { OneStep(links, y, z); } else if (z, y) in links { OneStep(links, z, y); }
        }
        SameLabelAlong(now, more, p, |p| - 1);
      }
    }
  }

  lemma Bridge(links: Links, more: Links, x: nat, a: nat, b: nat, y: nat)
    requires links <= more && Connected(links, x, a) && Connected(links, b, y) && Connected(more, a, b)
    ensures Connected(more, x, y)
  {
    Monotone(links, more, x, a);
    Monotone(links, more, b, y);
    Transitive(more, x, a, b);
    Transitive(more, x, b, y);
  }

  /** If linked nodes have equal labels, so has every node along a path. */
  lemma {:induction false} SameLabelAlong(tag: Parents, links: Links, path: seq<nat>, n: nat)
    requires IsPath(links, path) && n < |path| && path[0] in tag
    requires forall x, y :: Adjacent(links, x, y) ==> x in tag && y in tag && tag[x] == tag[y]
    ensures path[n] in tag && tag[path[n]] == tag[path[0]]
  {
    if n > 0 {
      SameLabelAlong(tag, links, path, n - 1);
      assert Adjacent(links, path[n - 1], path[n - 1 + 1]);
    }
  }

  /** Before any link, every node is on its own. */
  lemma SingletonsRepresentNothing(parent: Parents)
    requires forall x :: x in parent ==> parent[x] == x
    ensures Represents(parent, parent, {})
  {
    forall a, b | a in parent && b in parent ensures a == b <==> Connected({}, a, b) {
      if a == b { Trivially({}, a); }
      if Connected({}, a, b) {
        var p :| Connects({}, p, a, b);
        SameLabelAlong(parent, {}, p, |p| - 1);
      }
    }
  }

  /** A new node joins on its own. */
  lemma Joins(parent: Parents, root: Parents, links: Links, x: nat)
    requires Represents(parent, root, links) && x !in parent
    ensures Represents(parent[x := x], root[x := x], links)
  {
    var grown, tag := parent[x := x], root[x := x];
    forall a | a in grown ensures LabelledAt(grown, tag, a) {
      if a != x { assert LabelledAt(parent, root, a); }
    }
    forall a, b | a in tag && b in tag ensures tag[a] == tag[b] <==> Connected(links, a, b) {
      if Connected(links, a, b) {
        var p :| Connects(links, p, a, b);
        forall y, z | Adjacent(links, y, z) ensures y in root && z in root && root[y] == root[z] {
          OneStep(links, y, z);
        }
        SameLabelAlong(tag, links, p, |p| - 1);
      } else if a == b {
        Trivially(links, a);
      } else {
        assert a != x ==> LabelledAt(parent, root, a);
        assert b != x ==> LabelledAt(parent, root, b);
      }
    }
  }
}
