/** Relocating the anchor of a replaced value, over the document's anchors and aliases in
    source order. */
module Relocation {
  import opened Wrappers

  /** An anchor definition with the value it names, an alias, or a node with neither. */
  datatype Item<V> = Def(name: string, value: V) | Alias(name: string) | Plain

  predicate Defines<V>(item: Item<V>, name: string) {
    item.Def? && item.name == name
  }

  predicate Refers<V>(item: Item<V>, name: string) {
    item.Alias? && item.name == name
  }

  /** The most recent definition of a name before a position. */
  function Preceding<V>(doc: seq<Item<V>>, name: string, i: nat): (d: Option<nat>)
    requires i <= |doc|
    ensures d.Some? ==> d.value < i && Defines(doc[d.value], name)
    ensures forall k :: (if d.Some? then d.value else -1) < k < i ==> !Defines(doc[k], name)
  {
    if i == 0 then None
    else if Defines(doc[i - 1], name) then Some(i - 1)
    else Preceding(doc, name, i - 1)
  }

  /** What a node reads: its own value, or that of the definition its alias binds to. */
  function Reads<V>(doc: seq<Item<V>>, i: nat): Option<V>
    requires i < |doc|
  {
    match doc[i]
    case Def(_, value) => Some(value)
    case Plain => None
    case Alias(name) =>
      var d := Preceding(doc, name, i);
      if d.Some? then Some(doc[d.value].value) else None
  }

  /** An alias `a` that binds to the definition at `d`. */
  ghost predicate Bound<V>(doc: seq<Item<V>>, d: nat, a: nat)
  {
    && d < a < |doc| && doc[d].Def? && Refers(doc[a], doc[d].name)
    && forall k :: d < k < a ==> !Defines(doc[k], doc[d].name)
  }

  // ---- choosing the alias that takes a definition over -----------------------------------

  /** The least position of a later definition of the same name. */
  method ReboundAt<V>(doc: seq<Item<V>>, d: nat) returns (r: nat)
    requires d < |doc| && doc[d].Def?
    ensures d < r <= |doc| && (r < |doc| ==> Defines(doc[r], doc[d].name))
    ensures forall k :: d < k < r ==> !Defines(doc[k], doc[d].name)
  {
    r := d + 1;
    while r < |doc| && !Defines(doc[r], doc[d].name)
      invariant d < r <= |doc|
      invariant forall k :: d < k < r ==> !Defines(doc[k], doc[d].name)
    {
      r := r + 1;
    }
  }

  /** The first alias bound to `d` that no edit has touched. */
  method FirstUntouched<V>(doc: seq<Item<V>>, d: nat, touched: set<nat>) returns (a: Option<nat>)
    requires d < |doc| && doc[d].Def?
    ensures a.Some? ==> Bound(doc, d, a.value) && a.value !in touched
    ensures forall k: nat :: Bound(doc, d, k) && k !in touched ==> a.Some? && a.value <= k
  {
    var reboundAt := ReboundAt(doc, d);
    for k := d + 1 to reboundAt
      invariant forall j: nat :: Bound(doc, d, j) && j !in touched ==> j >= k
    {
      if Refers(doc[k], doc[d].name) && k !in touched {
        assert Bound(doc, d, k);
        return Some(k);
      }
    }
    forall j: nat | Bound(doc, d, j) ensures j < reboundAt {
    }
    return None;
  }

  /** Each relocation moves a replaced definition to an untouched alias bound to it, and none
      that has one is left without. */
  ghost predicate Relocates<V>(doc: seq<Item<V>>, anchored: seq<nat>, edited: set<nat>, moved: map<nat, nat>)
  {
    && (forall a :: a in moved ==> Bound(doc, moved[a], a) && a !in edited && moved[a] in anchored)
    && (forall k {:trigger TakenOver(doc, anchored[k], edited, moved)} :: 0 <= k < |anchored| ==>
          TakenOver(doc, anchored[k], edited, moved))
  }

  /** Every untouched alias bound to `d` comes at or after one that takes `d` over. */
  ghost predicate TakenOver<V>(doc: seq<Item<V>>, d: nat, edited: set<nat>, moved: map<nat, nat>)
  {
    forall i: nat {:trigger TakenBy(moved, d, i)} :: Bound(doc, d, i) && i !in edited ==> TakenBy(moved, d, i)
  }

  ghost predicate TakenBy(moved: map<nat, nat>, d: nat, i: nat)
  {
    exists a :: a in moved && a <= i && moved[a] == d
  }

  lemma TakenOverStays<V>(doc: seq<Item<V>>, d: nat, edited: set<nat>, moved: map<nat, nat>, a: nat, e: nat)
    requires TakenOver(doc, d, edited, moved) && a !in moved
    ensures TakenOver(doc, d, edited, moved[a := e])
  {
    forall i: nat | Bound(doc, d, i) && i !in edited ensures TakenBy(moved[a := e], d, i) {
      assert TakenBy(moved, d, i);
      var b :| b in moved && b <= i && moved[b] == d;
      assert moved[a := e][b] == d;
    }
  }

  /** Two definitions that one alias is bound to are the same. */
  lemma BoundOnce<V>(doc: seq<Item<V>>, c: nat, d: nat, a: nat)
    requires Bound(doc, c, a) && Bound(doc, d, a)
    ensures c == d
  {
    assert c < d ==> Defines(doc[d], doc[c].name);
    assert d < c ==> Defines(doc[c], doc[d].name);
  }

  method RelocateAnchors<V>(doc: seq<Item<V>>, anchored: seq<nat>, edited: set<nat>) returns (moved: map<nat, nat>)
    requires forall k :: 0 <= k < |anchored| ==> anchored[k] < |doc| && doc[anchored[k]].Def?
    ensures Relocates(doc, anchored, edited, moved)
    // a definition replaced once moves once
    ensures (forall j, k :: 0 <= j < k < |anchored| ==> anchored[j] != anchored[k]) ==>
      forall a, b :: a in moved && b in moved && moved[a] == moved[b] ==> a == b
  {
    moved := map[];
    for k := 0 to |anchored|
      invariant forall a :: a in moved ==> Bound(doc, moved[a], a) && a !in edited && moved[a] in anchored[..k]
      invariant (forall i, j :: 0 <= i < j < |anchored| ==> anchored[i] != anchored[j]) ==>
        forall a, b :: a in moved && b in moved && moved[a] == moved[b] ==> a == b
      invariant forall j :: 0 <= j < k ==> TakenOver(doc, anchored[j], edited, moved)
    {
      var d := anchored[k];
      var a := FirstUntouched(doc, d, edited + moved.Keys);
      ghost var before := moved;
      if a.Some? {
        forall j | 0 <= j < k ensures TakenOver(doc, anchored[j], edited, moved[a.value := d]) {
          TakenOverStays(doc, anchored[j], edited, moved, a.value, d);
        }
        moved := moved[a.value := d];
      }
      forall i: nat | Bound(doc, d, i) && i !in edited ensures TakenBy(moved, d, i) {
        if i in before {
          BoundOnce(doc, before[i], d, i);
          assert moved[i] == d;
        } else {
          assert moved[a.value] == d;
        }
      }
    }
  }

  // ---- the rewritten document ----------------------------------------------------------

  /** Replaced definitions lose their anchors, relocated aliases become definitions of the
      displaced values, and aliases the edits drop are gone. */
  function Rewritten<V>(doc: seq<Item<V>>, anchored: seq<nat>, dropped: set<nat>, moved: map<nat, nat>)
    : (r: seq<Item<V>>)
    requires forall a :: a in moved ==> moved[a] < |doc| && doc[moved[a]].Def?
    ensures |r| == |doc|
  {
    seq(|doc|, i requires 0 <= i < |doc| =>
      if i in moved then doc[moved[i]]
      else if i in anchored || i in dropped then Plain
      else doc[i])
  }

  /** A replaced definition and a dropped alias are gone from where they stood, and a node that is
      neither, and takes nothing over, is as it was. */
  lemma ReplacedAreGone<V>(doc: seq<Item<V>>, anchored: seq<nat>, edited: set<nat>, dropped: set<nat>,
                           moved: map<nat, nat>, i: nat)
    requires Relocates(doc, anchored, edited, moved) && dropped <= edited && i < |doc|
    requires forall k :: 0 <= k < |anchored| ==> anchored[k] < |doc| && doc[anchored[k]].Def?
    ensures i in anchored || i in dropped ==> Rewritten(doc, anchored, dropped, moved)[i].Plain?
    ensures i !in anchored && i !in dropped && i !in moved ==>
      Rewritten(doc, anchored, dropped, moved)[i] == doc[i]
  {
    if i in moved {
      assert Bound(doc, moved[i], i);
    }
  }

  /** Past a definition, nothing defines its name anew but the aliases that take it over. */
  lemma DefinesAfter<V>(doc: seq<Item<V>>, anchored: seq<nat>, edited: set<nat>, dropped: set<nat>,
                        moved: map<nat, nat>, name: string, d: int, k: nat)
    requires Relocates(doc, anchored, edited, moved) && -1 <= d < k < |doc|
    requires d >= 0 ==> Defines(doc[d], name)
    requires forall j :: d < j <= k ==> !Defines(doc[j], name)
    ensures Defines(Rewritten(doc, anchored, dropped, moved)[k], name) ==> k in moved && moved[k] == d
  {
    if k in moved {
      assert Bound(doc, moved[k], k);
      if d >= 0 && doc[moved[k]].name == name {
        assert Bound(doc, d, k);
        BoundOnce(doc, moved[k], d, k);
      }
    }
  }

  /** What the edits are: of aliases, some dropped and some wrapped in a larger node that keeps
      them. A wrapped alias names a whole entry, never a replaced value. */
  ghost predicate Edits<V>(doc: seq<Item<V>>, anchored: seq<nat>, dropped: set<nat>, wrapped: set<nat>)
  {
    && (forall k :: 0 <= k < |anchored| ==> anchored[k] < |doc| && doc[anchored[k]].Def?)
    && (forall p :: p in dropped ==> p < |doc| && doc[p].Alias?)
    && (forall w, d :: w in wrapped && d in anchored ==> !Bound(doc, d, w))
  }

  /** The definition an alias is bound to, or one that took it over, is still there before it. */
  lemma StillDefined<V>(doc: seq<Item<V>>, anchored: seq<nat>, dropped: set<nat>, wrapped: set<nat>,
                        moved: map<nat, nat>, d: nat, i: nat) returns (s: nat)
    requires Edits(doc, anchored, dropped, wrapped) && Relocates(doc, anchored, dropped + wrapped, moved)
    requires Bound(doc, d, i) && i !in dropped && i !in moved
    ensures d <= s < i && Rewritten(doc, anchored, dropped, moved)[s] == doc[d]
  {
    s := d;
    if d in anchored {
      var k :| 0 <= k < |anchored| && anchored[k] == d;
      assert TakenOver(doc, anchored[k], dropped + wrapped, moved);
      assert TakenBy(moved, d, i);
      s :| s in moved && s <= i && moved[s] == d;
    }
  }

  /** Every alias the edits leave reading still reads the value it read before. */
  lemma AliasesKeepTheirValues<V>(doc: seq<Item<V>>, anchored: seq<nat>, dropped: set<nat>, wrapped: set<nat>,
                                  moved: map<nat, nat>, i: nat)
    requires Edits(doc, anchored, dropped, wrapped) && Relocates(doc, anchored, dropped + wrapped, moved)
    requires i < |doc| && doc[i].Alias? && i !in dropped
    ensures Reads(Rewritten(doc, anchored, dropped, moved), i) == Reads(doc, i)
  {
    var now, name := Rewritten(doc, anchored, dropped, moved), doc[i].name;
    var was := Preceding(doc, name, i);
    if i in moved {
      BoundIsPreceding(doc, moved[i], i);
      return;
    }
    var d := Preceding(now, name, i);
    var from: int := if was.Some? then was.value else -1;
    if was.Some? {
      var s := StillDefined(doc, anchored, dropped, wrapped, moved, was.value, i);
      assert Defines(now[s], name);
    }
    if d.Some? && d.value as int > from {
      DefinesAfter(doc, anchored, dropped + wrapped, dropped, moved, name, from, d.value);
    }
  }

  lemma BoundIsPreceding<V>(doc: seq<Item<V>>, d: nat, a: nat)
    requires Bound(doc, d, a)
    ensures Preceding(doc, doc[a].name, a) == Some(d)
  {
    var p := Preceding(doc, doc[a].name, a);
    assert Defines(doc[d], doc[a].name);
  }
}
