/** Applying source edits right to left, against replacing every span at once. */
module SourceEdits {

  datatype Edit = Edit(start: nat, end: nat, replacement: string)

  predicate WithinBounds(edits: seq<Edit>, n: nat) {
    forall i :: 0 <= i < |edits| ==> edits[i].start <= edits[i].end <= n
  }

  // ---- simultaneous replacement ----------------------------------------------------------

  predicate InsertsAt(e: Edit, p: nat) { e.start == p && e.end == p }

  predicate ReplacesAt(e: Edit, p: nat) { e.start == p && e.end > p }

  /** The text of the first insertion at a position. */
  function InsertedAt(edits: seq<Edit>, p: nat): string
  {
    if edits == [] then ""
    else if InsertsAt(edits[0], p) then edits[0].replacement
    else InsertedAt(edits[1..], p)
  }

  /** The first edit that replaces text from a position on, if any: its index, or -1. */
  function ReplacedAt(edits: seq<Edit>, p: nat): (i: int)
    ensures -1 <= i < |edits|
    ensures i >= 0 ==> ReplacesAt(edits[i], p)
    ensures i < 0 ==> forall k :: 0 <= k < |edits| ==> !ReplacesAt(edits[k], p)
  {
    if edits == [] then -1
    else if ReplacesAt(edits[0], p) then 0
    else var i := ReplacedAt(edits[1..], p); if i < 0 then -1 else i + 1
  }

  /** The text from `p` on with every edit made at once: what is inserted at a position comes
      before what stands or is put there. */
  function AllAtOnce(text: string, edits: seq<Edit>, p: nat): string
    requires WithinBounds(edits, |text|) && p <= |text|
    decreases |text| - p, 1
  {
    InsertedAt(edits, p) + AfterInsertion(text, edits, p)
  }

  function AfterInsertion(text: string, edits: seq<Edit>, p: nat): string
    requires WithinBounds(edits, |text|) && p <= |text|
    decreases |text| - p, 0
  {
    var i := ReplacedAt(edits, p);
    if i >= 0 then edits[i].replacement + AllAtOnce(text, edits, edits[i].end)
    else if p < |text| then [text[p]] + AllAtOnce(text, edits, p + 1)
    else ""
  }

  // ---- the code's order --------------------------------------------------------------

  /** One edit to a span: the last value wins, in the place of the first. */
  function Put(edits: seq<Edit>, e: Edit): seq<Edit>
  {
    if edits == [] then [e]
    else if edits[0].start == e.start && edits[0].end == e.end then [e] + edits[1..]
    else [edits[0]] + Put(edits[1..], e)
  }

  function Unique(edits: seq<Edit>): seq<Edit>
  {
    if edits == [] then [] else Put(Unique(edits[..|edits| - 1]), edits[|edits| - 1])
  }

  ghost predicate SameSpan(a: Edit, b: Edit)
  {
    a.start == b.start && a.end == b.end
  }

  /** No edit before, or after, the k-th has its span. */
  ghost predicate FirstOfSpan(edits: seq<Edit>, k: nat)
  {
    k < |edits| && forall j :: 0 <= j < k ==> !SameSpan(edits[j], edits[k])
  }

  ghost predicate LastOfSpan(edits: seq<Edit>, k: nat)
  {
    k < |edits| && forall j :: k < j < |edits| ==> !SameSpan(edits[j], edits[k])
  }

  /** `unique` holds the last edit of each span, in the order the spans are first used, at `firsts`. */
  ghost predicate OnePerSpan(edits: seq<Edit>, unique: seq<Edit>, firsts: seq<nat>)
  {
    && |firsts| == |unique|
    && (forall i, j :: 0 <= i < j < |firsts| ==> firsts[i] < firsts[j])
    && (forall i :: 0 <= i < |firsts| ==>
          FirstOfSpan(edits, firsts[i]) && SameSpan(edits[firsts[i]], unique[i]) && IsLast(edits, unique[i]))
    && (forall k :: 0 <= k < |edits| ==> HasSpan(unique, edits[k]))
  }

  ghost predicate IsLast(edits: seq<Edit>, e: Edit)
  {
    exists k: nat :: LastOfSpan(edits, k) && edits[k] == e
  }

  ghost predicate HasSpan(edits: seq<Edit>, e: Edit)
  {
    exists i :: 0 <= i < |edits| && SameSpan(edits[i], e)
  }

  lemma {:induction false} PutAt(edits: seq<Edit>, e: Edit)
    ensures !HasSpan(edits, e) ==> Put(edits, e) == edits + [e]
    ensures forall i ::
      (&& 0 <= i < |edits| && SameSpan(edits[i], e)
       && forall j :: 0 <= j < i ==> !SameSpan(edits[j], e)) ==>
      Put(edits, e) == edits[i := e]
  {
    if edits != [] && !SameSpan(edits[0], e) {
      var rest := edits[1..];
      PutAt(rest, e);
      if !HasSpan(edits, e) {
        forall i | 0 <= i < |rest| ensures !SameSpan(rest[i], e) { assert rest[i] == edits[i + 1]; }
        assert !HasSpan(rest, e) && edits + [e] == [edits[0]] + (rest + [e]);
      }
      forall i | 0 <= i < |edits| && SameSpan(edits[i], e) && (forall j :: 0 <= j < i ==> !SameSpan(edits[j], e))
        ensures Put(edits, e) == edits[i := e]
      {
        assert rest[i - 1] == edits[i];
        forall j | 0 <= j < i - 1 ensures !SameSpan(rest[j], e) { assert rest[j] == edits[j + 1]; }
        assert edits[i := e] == [edits[0]] + rest[i - 1 := e];
      }
    }
  }

  lemma StillFirst(edits: seq<Edit>, e: Edit, k: nat)
    requires FirstOfSpan(edits, k)
    ensures FirstOfSpan(edits + [e], k)
  {
  }

  lemma StillLast(edits: seq<Edit>, e: Edit, u: Edit)
    requires IsLast(edits, u) && !SameSpan(u, e)
    ensures IsLast(edits + [e], u)
  {
    var k: nat :| LastOfSpan(edits, k) && edits[k] == u;
    assert LastOfSpan(edits + [e], k);
  }

  lemma {:induction false} SpanAgain(edits: seq<Edit>, unique: seq<Edit>, firsts: seq<nat>, e: Edit, i: nat)
    requires OnePerSpan(edits, unique, firsts) && i < |unique| && SameSpan(unique[i], e)
    ensures OnePerSpan(edits + [e], unique[i := e], firsts) && Put(unique, e) == unique[i := e]
  {
    var more, now := edits + [e], unique[i := e];
    forall j | 0 <= j < |unique| && j != i ensures !SameSpan(unique[j], e) {
      assert FirstOfSpan(edits, firsts[i]) && FirstOfSpan(edits, firsts[j]);
      assert firsts[i] != firsts[j];
    }
    PutAt(unique, e);
    assert LastOfSpan(more, |edits|);
    forall j | 0 <= j < |firsts|
      ensures FirstOfSpan(more, firsts[j]) && SameSpan(more[firsts[j]], now[j]) && IsLast(more, now[j])
    {
      StillFirst(edits, e, firsts[j]);
      if j != i { StillLast(edits, e, unique[j]); }
    }
    SpansStay(edits, unique, e, i);
  }

  lemma {:induction false} SpansStay(edits: seq<Edit>, unique: seq<Edit>, e: Edit, i: nat)
    requires i < |unique| && SameSpan(unique[i], e) && forall k :: 0 <= k < |edits| ==> HasSpan(unique, edits[k])
    ensures forall k :: 0 <= k < |edits + [e]| ==> HasSpan(unique[i := e], (edits + [e])[k])
  {
    var more, now := edits + [e], unique[i := e];
    forall k | 0 <= k < |more| ensures HasSpan(now, more[k]) {
      if k < |edits| {
        var j :| 0 <= j < |unique| && SameSpan(unique[j], edits[k]);
        assert SameSpan(now[j], more[k]);
      } else {
        assert SameSpan(now[i], more[k]);
      }
    }
  }

  lemma {:induction false} SpanFresh(edits: seq<Edit>, unique: seq<Edit>, firsts: seq<nat>, e: Edit)
    requires OnePerSpan(edits, unique, firsts) && !HasSpan(unique, e)
    ensures OnePerSpan(edits + [e], unique + [e], firsts + [|edits|]) && Put(unique, e) == unique + [e]
  {
    var more, now, all := edits + [e], unique + [e], firsts + [|edits|];
    PutAt(unique, e);
    forall k | 0 <= k < |edits| ensures !SameSpan(edits[k], e) {
      assert HasSpan(unique, edits[k]);
      var j :| 0 <= j < |unique| && SameSpan(unique[j], edits[k]);
      assert !SameSpan(unique[j], e);
    }
    assert FirstOfSpan(more, |edits|) && LastOfSpan(more, |edits|);
    forall j | 0 <= j < |all|
      ensures FirstOfSpan(more, all[j]) && SameSpan(more[all[j]], now[j]) && IsLast(more, now[j])
    {
      if j < |firsts| {
        StillFirst(edits, e, firsts[j]);
        StillLast(edits, e, unique[j]);
      }
    }
    forall k | 0 <= k < |more| ensures HasSpan(now, more[k]) {
      if k < |edits| {
        assert HasSpan(unique, edits[k]);
        var j :| 0 <= j < |unique| && SameSpan(unique[j], edits[k]);
        assert SameSpan(now[j], more[k]);
      } else {
        assert SameSpan(now[|unique|], more[k]);
      }
    }
  }

  lemma {:induction false} SpanNext(edits: seq<Edit>, unique: seq<Edit>, firsts: seq<nat>, e: Edit)
    returns (now: seq<nat>)
    requires OnePerSpan(edits, unique, firsts)
    ensures OnePerSpan(edits + [e], Put(unique, e), now)
  {
    if HasSpan(unique, e) {
      var i: nat :| i < |unique| && SameSpan(unique[i], e);
      SpanAgain(edits, unique, firsts, e, i);
      now := firsts;
    } else {
      SpanFresh(edits, unique, firsts, e);
      now := firsts + [|edits|];
    }
  }

  /** One edit is kept to a span: the last of it, in the place of the first. */
  lemma {:induction false} UniqueIsOnePerSpan(edits: seq<Edit>) returns (firsts: seq<nat>)
    ensures OnePerSpan(edits, Unique(edits), firsts)
  {
    if edits == [] { return []; }
    var front, e := edits[..|edits| - 1], edits[|edits| - 1];
    assert edits == front + [e];
    firsts := UniqueIsOnePerSpan(front);
    firsts := SpanNext(front, Unique(front), firsts, e);
  }

  /** An edit is kept exactly if no later one has its span, and no two kept edits share one. */
  lemma {:induction false} UniqueKeepsTheLast(edits: seq<Edit>)
    ensures forall e :: e in Unique(edits) <==>
      exists k: nat :: k < |edits| && edits[k] == e && forall j :: k < j < |edits| ==> !SameSpan(edits[j], e)
    ensures forall i, j :: 0 <= i < j < |Unique(edits)| ==> !SameSpan(Unique(edits)[i], Unique(edits)[j])
  {
    var unique := Unique(edits);
    var firsts := UniqueIsOnePerSpan(edits);
    forall e ensures e in unique <==> IsLast(edits, e) {
      if IsLast(edits, e) {
        var k: nat :| LastOfSpan(edits, k) && edits[k] == e;
        assert HasSpan(unique, edits[k]);
        var i :| 0 <= i < |unique| && SameSpan(unique[i], e);
        assert IsLast(edits, unique[i]);
        var n: nat :| LastOfSpan(edits, n) && edits[n] == unique[i];
        assert n == k;
      }
    }
    forall e ensures IsLast(edits, e) <==>
      exists k: nat :: k < |edits| && edits[k] == e && forall j :: k < j < |edits| ==> !SameSpan(edits[j], e)
    {
      if k: nat :| k < |edits| && edits[k] == e && forall j :: k < j < |edits| ==> !SameSpan(edits[j], e) {
        assert LastOfSpan(edits, k);
      }
    }
    forall i, j | 0 <= i < j < |unique| ensures !SameSpan(unique[i], unique[j]) {
      assert FirstOfSpan(edits, firsts[i]) && FirstOfSpan(edits, firsts[j]) && firsts[i] < firsts[j];
    }
  }

  /** Where the spans differ every edit is kept, in its place. */
  lemma {:induction false} UniqueOfDistinct(edits: seq<Edit>)
    requires forall i, j :: 0 <= i < j < |edits| ==> !SameSpan(edits[i], edits[j])
    ensures Unique(edits) == edits
  {
    if edits != [] {
      var front, e := edits[..|edits| - 1], edits[|edits| - 1];
      UniqueOfDistinct(front);
      PutAt(front, e);
      assert !HasSpan(front, e) && edits == front + [e];
    }
  }

  /** Well listed edits have different spans. */
  lemma WellListedDiffer(edits: seq<Edit>, n: nat)
    requires WellListed(edits, n)
    ensures Unique(edits) == edits
  {
    forall i, j | 0 <= i < j < |edits| ensures !SameSpan(edits[i], edits[j]) {
      assert Compatible(edits[i], edits[j]);
    }
    UniqueOfDistinct(edits);
  }

  /** A stable sort by falling start. */
  function InsertByStart(sorted: seq<Edit>, e: Edit): (r: seq<Edit>)
    ensures |r| == |sorted| + 1
  {
    if sorted == [] || sorted[0].start < e.start then [e] + sorted
    else [sorted[0]] + InsertByStart(sorted[1..], e)
  }

  function ByStart(edits: seq<Edit>): seq<Edit>
  {
    if edits == [] then [] else InsertByStart(ByStart(edits[..|edits| - 1]), edits[|edits| - 1])
  }

  /** A slice bound, as slicing past the end clamps it. */
  function Clamped(p: nat, text: string): (q: nat)
    ensures q <= p && q <= |text| && (q < p ==> q == |text|)
  {
    if p <= |text| then p else |text|
  }

  function ApplyOne(text: string, e: Edit): string
  {
    text[..Clamped(e.start, text)] + e.replacement + text[Clamped(e.end, text)..]
  }

  /** Edits before `n`, each ending before the one ahead of it starts; of two at one start, the
      one ahead replaces text. */
  predicate Falling(edits: seq<Edit>, n: nat)
    decreases |edits|
  {
    edits == [] ||
    (&& edits[0].start <= edits[0].end <= n && Falling(edits[1..], edits[0].start)
     && (|edits| > 1 && edits[1].start == edits[0].start ==> edits[0].start < edits[0].end))
  }

  /** Neither edit reaches into the other; where they start together, the first listed replaces
      text and the second inserts. */
  predicate Compatible(first: Edit, second: Edit)
  {
    && (first.end <= second.start || second.end <= first.start)
    && (first.start == second.start ==> first.start < first.end && second.end == second.start)
  }

  /** Pairwise disjoint edits, no insertion listed before a replacement that starts with it. */
  predicate WellListed(edits: seq<Edit>, n: nat)
  {
    WithinBounds(edits, n) && forall i, j :: 0 <= i < j < |edits| ==> Compatible(edits[i], edits[j])
  }

  /** Sorting puts every edit behind those it must not disturb. */
  lemma {:induction false} InsertFalls(sorted: seq<Edit>, e: Edit, n: nat)
    requires Falling(sorted, n) && e.start <= e.end <= n
    requires forall i :: 0 <= i < |sorted| ==> Compatible(sorted[i], e)
    ensures Falling(InsertByStart(sorted, e), n)
    decreases |sorted|
  {
    if sorted == [] || sorted[0].start < e.start {
      assert ([e] + sorted)[1..] == sorted;
    } else {
      assert Compatible(sorted[0], e);
      InsertFalls(sorted[1..], e, sorted[0].start);
      assert InsertByStart(sorted, e)[1..] == InsertByStart(sorted[1..], e);
    }
  }

  lemma {:induction false} InsertAdds(sorted: seq<Edit>, e: Edit)
    ensures forall x :: x in InsertByStart(sorted, e) <==> x == e || x in sorted
  {
    if sorted == [] || sorted[0].start < e.start {
      assert forall x :: x in [e] + sorted <==> x == e || x in sorted;
    } else {
      InsertAdds(sorted[1..], e);
      assert sorted == [sorted[0]] + sorted[1..];
    }
  }

  lemma {:induction false} SortFalls(edits: seq<Edit>, n: nat)
    requires WellListed(edits, n)
    ensures Falling(ByStart(edits), n)
    ensures forall x :: x in ByStart(edits) <==> x in edits
  {
    if edits != [] {
      var front, last := edits[..|edits| - 1], edits[|edits| - 1];
      SortFalls(front, n);
      var sorted := ByStart(front);
      forall i | 0 <= i < |sorted| ensures Compatible(sorted[i], last) {
        assert sorted[i] in front;
      }
      InsertFalls(sorted, last, n);
      InsertAdds(sorted, last);
      assert edits == front + [last];
    }
  }

  // ---- right to left is all at once ------------------------------------------------------

  lemma {:induction false} FallingWiden(edits: seq<Edit>, n: nat, m: nat)
    requires Falling(edits, n) && n <= m
    ensures Falling(edits, m)
  {
  }

  /** Edits applied in the order given. */
  function ApplyInOrder(text: string, edits: seq<Edit>): string
    decreases |edits|
  {
    if edits == [] then text else ApplyInOrder(ApplyOne(text, edits[0]), edits[1..])
  }

  function Reversed(edits: seq<Edit>): (r: seq<Edit>)
    ensures |r| == |edits|
  {
    if edits == [] then [] else Reversed(edits[1..]) + [edits[0]]
  }

  /** Edits from `p` up to `n`, each starting where the one before it ends or later; two
      insertions never share a place. */
  predicate Rising(edits: seq<Edit>, p: nat, n: nat)
    decreases |edits|
  {
    if edits == [] then p <= n
    else
      && p <= edits[0].start <= edits[0].end <= n && Rising(edits[1..], edits[0].end, n)
      && (|edits| > 1 && edits[0].start == edits[0].end ==> !InsertsAt(edits[1], edits[0].start))
  }

  lemma {:induction false} RisingWiden(edits: seq<Edit>, p: nat, n: nat, m: nat)
    requires Rising(edits, p, n) && n <= m
    ensures Rising(edits, p, m)
    decreases |edits|
  {
    if edits != [] {
      RisingWiden(edits[1..], edits[0].end, n, m);
    }
  }

  lemma {:induction false} RisingBounds(edits: seq<Edit>, p: nat, n: nat, x: Edit)
    requires Rising(edits, p, n) && x in edits
    ensures p <= x.start <= x.end <= n
    decreases |edits|
  {
    if x != edits[0] {
      assert edits == [edits[0]] + edits[1..];
      RisingBounds(edits[1..], edits[0].end, n, x);
    }
  }

  lemma {:induction false} RisingAppend(front: seq<Edit>, last: Edit, p: nat, n: nat)
    requires Rising(front, p, last.start) && last.start <= last.end <= n
    requires front != [] && front[|front| - 1].start == last.start ==> last.start < last.end
    ensures Rising(front + [last], p, n)
    decreases |front|
  {
    var all := front + [last];
    if front == [] {
      assert all[1..] == [];
    } else {
      assert all[1..] == front[1..] + [last];
      RisingAppend(front[1..], last, front[0].end, n);
    }
  }

  /** The pieces between rising edits, with the edits' texts between them. */
  function Splice(text: string, edits: seq<Edit>, p: nat): string
    requires Rising(edits, p, |text|)
    decreases |edits|
  {
    if edits == [] then text[p..]
    else text[p..edits[0].start] + edits[0].replacement + Splice(text, edits[1..], edits[0].end)
  }

  /** Making the last edit first does not disturb the others. */
  lemma {:induction false} SpliceLast(text: string, front: seq<Edit>, last: Edit, p: nat)
    requires last.start <= last.end <= |text| && Rising(front, p, last.start)
    requires Rising(front + [last], p, |text|)
    ensures Rising(front, p, |ApplyOne(text, last)|)
    ensures Splice(text, front + [last], p) == Splice(ApplyOne(text, last), front, p)
    decreases |front|
  {
    var all, now := front + [last], ApplyOne(text, last);
    RisingWiden(front, p, last.start, |now|);
    if front == [] {
      assert all[1..] == [];
      assert now[p..] == text[p..last.start] + last.replacement + text[last.end..];
    } else {
      assert all[1..] == front[1..] + [last] && all[0] == front[0];
      SpliceLast(text, front[1..], last, front[0].end);
      assert now[p..front[0].start] == text[p..front[0].start] by {
        assert front[0].start <= last.start by { RisingBounds(front, p, last.start, front[0]); }
      }
    }
  }

  lemma {:induction false} ReversedRises(edits: seq<Edit>, n: nat)
    requires Falling(edits, n)
    ensures Rising(Reversed(edits), 0, n)
    ensures edits != [] ==> Reversed(edits)[|edits| - 1] == edits[0]
    decreases |edits|
  {
    if edits != [] {
      ReversedRises(edits[1..], edits[0].start);
      RisingAppend(Reversed(edits[1..]), edits[0], 0, n);
    }
  }

  lemma {:induction false} InOrderIsSplice(text: string, edits: seq<Edit>)
    requires Falling(edits, |text|)
    ensures Rising(Reversed(edits), 0, |text|)
    ensures ApplyInOrder(text, edits) == Splice(text, Reversed(edits), 0)
    decreases |edits|
  {
    ReversedRises(edits, |text|);
    if edits != [] {
      var rest, now := edits[1..], ApplyOne(text, edits[0]);
      FallingWiden(rest, edits[0].start, |now|);
      InOrderIsSplice(now, rest);
      ReversedRises(rest, edits[0].start);
      SpliceLast(text, Reversed(rest), edits[0], 0);
    }
  }

  /** `rest` lists in order the edits that start at `p` or later. */
  ghost predicate Ahead(edits: seq<Edit>, rest: seq<Edit>, p: nat, n: nat)
  {
    && WithinBounds(edits, n) && Rising(rest, p, n)
    && (forall e :: e in rest ==> e in edits)
    && (forall e :: e in edits && e.start >= p ==> e in rest)
  }

  lemma {:induction false} InsertedIs(edits: seq<Edit>, p: nat, e: Edit)
    requires e in edits && InsertsAt(e, p) && forall x :: x in edits && InsertsAt(x, p) ==> x == e
    ensures InsertedAt(edits, p) == e.replacement
  {
    if edits[0] != e {
      InsertedIs(edits[1..], p, e);
    }
  }

  lemma {:induction false} NothingInserted(edits: seq<Edit>, p: nat)
    requires forall x :: x in edits ==> !InsertsAt(x, p)
    ensures InsertedAt(edits, p) == ""
  {
    if edits != [] {
      NothingInserted(edits[1..], p);
    }
  }

  /** What follows an insertion at `p`: the next edit's text if one replaces there, else a
      character of the original. */
  lemma {:induction false} AfterInsertionIsSplice(text: string, edits: seq<Edit>, rest: seq<Edit>, p: nat)
    requires Rising(rest, p, |text|) && WithinBounds(edits, |text|)
    requires forall e :: e in rest ==> e in edits
    requires forall e :: e in edits && e.start >= p && !InsertsAt(e, p) ==> e in rest
    requires rest != [] ==> !InsertsAt(rest[0], p)
    ensures AfterInsertion(text, edits, p) == Splice(text, rest, p)
    decreases |text| - p, 0
  {
    if rest != [] && rest[0].start == p {
      ReplacedNext(edits, rest, p, |text|);
      AllAtOnceIsSplice(text, edits, rest[1..], rest[0].end);
      assert text[p..p] == "";
    } else {
      NothingNext(edits, rest, p, |text|);
      if p < |text| {
        AllAtOnceIsSplice(text, edits, rest, p + 1);
        SpliceCopies(text, rest, p);
      }
    }
  }

  lemma {:induction false} SpliceCopies(text: string, rest: seq<Edit>, p: nat)
    requires p < |text| && Rising(rest, p + 1, |text|) && Rising(rest, p, |text|)
    ensures Splice(text, rest, p) == [text[p]] + Splice(text, rest, p + 1)
  {
    if rest == [] {
      assert text[p..] == [text[p]] + text[p + 1..];
    } else {
      var q := rest[0].start;
      assert text[p..q] == [text[p]] + text[p + 1..q];
      RegroupFirst([text[p]], text[p + 1..q], rest[0].replacement, Splice(text, rest[1..], rest[0].end));
    }
  }

  lemma RegroupFirst(a: string, b: string, c: string, d: string)
    ensures (a + b) + c + d == a + (b + c + d)
  {
  }

  lemma {:induction false} ReplacedNext(edits: seq<Edit>, rest: seq<Edit>, p: nat, n: nat)
    requires Rising(rest, p, n) && WithinBounds(edits, n)
    requires forall e :: e in rest ==> e in edits
    requires forall e :: e in edits && e.start >= p && !InsertsAt(e, p) ==> e in rest
    requires rest != [] && ReplacesAt(rest[0], p)
    ensures ReplacedAt(edits, p) >= 0 && edits[ReplacedAt(edits, p)] == rest[0]
    ensures Ahead(edits, rest[1..], rest[0].end, n)
  {
    var e, tail := rest[0], rest[1..];
    assert rest == [e] + tail && e in edits;
    forall x | x in tail ensures x.start >= e.end { RisingBounds(tail, e.end, n, x); }
    var i := ReplacedAt(edits, p);
    assert i >= 0;
    assert edits[i] in rest;
  }

  lemma {:induction false} NothingNext(edits: seq<Edit>, rest: seq<Edit>, p: nat, n: nat)
    requires Rising(rest, p, n) && WithinBounds(edits, n)
    requires forall e :: e in rest ==> e in edits
    requires forall e :: e in edits && e.start >= p && !InsertsAt(e, p) ==> e in rest
    requires rest != [] ==> rest[0].start > p
    ensures ReplacedAt(edits, p) < 0
    ensures p < n ==> Ahead(edits, rest, p + 1, n)
    ensures p == n ==> rest == []
  {
    if rest != [] {
      assert rest == [rest[0]] + rest[1..];
      forall x | x in rest[1..] ensures x.start > p { RisingBounds(rest[1..], rest[0].end, n, x); }
    }
    forall k | 0 <= k < |edits| ensures !ReplacesAt(edits[k], p) {
      assert edits[k] in edits;
    }
  }

  lemma {:induction false} AllAtOnceIsSplice(text: string, edits: seq<Edit>, rest: seq<Edit>, p: nat)
    requires Ahead(edits, rest, p, |text|)
    ensures AllAtOnce(text, edits, p) == Splice(text, rest, p)
    decreases |text| - p, 1
  {
    if rest != [] && InsertsAt(rest[0], p) {
      InsertedNext(edits, rest, p, |text|);
      AfterInsertionIsSplice(text, edits, rest[1..], p);
    } else {
      NoInsertionNext(edits, rest, p, |text|);
      AfterInsertionIsSplice(text, edits, rest, p);
    }
  }

  lemma {:induction false} NoneInserts(rest: seq<Edit>, p: nat, n: nat)
    requires Rising(rest, p, n) && (rest != [] ==> !InsertsAt(rest[0], p))
    ensures forall x :: x in rest ==> !InsertsAt(x, p)
  {
    if rest != [] {
      assert rest == [rest[0]] + rest[1..];
      forall x | x in rest[1..] ensures !InsertsAt(x, p) {
        RisingBounds(rest[1..], rest[0].end, n, x);
      }
    }
  }

  lemma {:induction false} NoInsertionNext(edits: seq<Edit>, rest: seq<Edit>, p: nat, n: nat)
    requires Ahead(edits, rest, p, n) && (rest != [] ==> !InsertsAt(rest[0], p))
    ensures InsertedAt(edits, p) == ""
  {
    NoneInserts(rest, p, n);
    NothingInserted(edits, p);
  }

  lemma {:induction false} InsertedNext(edits: seq<Edit>, rest: seq<Edit>, p: nat, n: nat)
    requires Ahead(edits, rest, p, n) && rest != [] && InsertsAt(rest[0], p)
    ensures InsertedAt(edits, p) == rest[0].replacement
    ensures |rest| > 1 ==> !InsertsAt(rest[1], p)
    ensures forall x :: x in edits && x.start >= p && !InsertsAt(x, p) ==> x in rest[1..]
  {
    var e, tail := rest[0], rest[1..];
    assert rest == [e] + tail;
    NoneInserts(tail, p, n);
    InsertedIs(edits, p, e);
  }

  /** Right-to-left application of well-listed edits makes them all at once. */
  lemma {:induction false} RightToLeftIsAllAtOnce(text: string, edits: seq<Edit>)
    requires WellListed(edits, |text|)
    ensures Falling(ByStart(edits), |text|)
    ensures ApplyInOrder(text, ByStart(edits)) == AllAtOnce(text, edits, 0)
  {
    SortFalls(edits, |text|);
    var sorted := ByStart(edits);
    InOrderIsSplice(text, sorted);
    ReversedHolds(sorted);
    AllAtOnceIsSplice(text, edits, Reversed(sorted), 0);
  }

  lemma {:induction false} ReversedHolds(edits: seq<Edit>)
    ensures forall e :: e in Reversed(edits) <==> e in edits
  {
    if edits != [] {
      ReversedHolds(edits[1..]);
      assert edits == [edits[0]] + edits[1..];
    }
  }

  // ---- the method --------------------------------------------------------------------

  /** Apply the edits, one to a span, from the right. */
  method ApplySourceEdits(text: string, edits: seq<Edit>) returns (r: string)
    ensures r == ApplyInOrder(text, ByStart(Unique(edits)))
    ensures WellListed(Unique(edits), |text|) ==> r == AllAtOnce(text, Unique(edits), 0)
    ensures WellListed(edits, |text|) ==> r == AllAtOnce(text, edits, 0)
  {
    if WellListed(edits, |text|) { WellListedDiffer(edits, |text|); }
    var unique: seq<Edit> := [];
    for i := 0 to |edits|
      invariant unique == Unique(edits[..i])
    {
      assert edits[..i + 1][..i] == edits[..i];
      unique := Put(unique, edits[i]);
    }
    assert edits[..|edits|] == edits;
    if WellListed(unique, |text|) { RightToLeftIsAllAtOnce(text, unique); }
    var sorted := ByStart(unique);
    r := text;
    for i := 0 to |sorted|
      invariant ApplyInOrder(text, sorted) == ApplyInOrder(r, sorted[i..])
    {
      assert sorted[i..][0] == sorted[i] && sorted[i..][1..] == sorted[i + 1..];
      r := r[..Clamped(sorted[i].start, r)] + sorted[i].replacement + r[Clamped(sorted[i].end, r)..];
    }
  }

  // ---- why the listing matters -----------------------------------------------------------

  /** Different spans, none reaching into another. */
  predicate Apart(edits: seq<Edit>, n: nat)
  {
    && WithinBounds(edits, n)
    && forall i, j :: 0 <= i < j < |edits| ==>
         && (edits[i].end <= edits[j].start || edits[j].end <= edits[i].start)
         && (edits[i].start != edits[j].start || edits[i].end != edits[j].end)
  }

  /** An insertion listed before a replacement with the same start. */
  predicate Misplaced(edits: seq<Edit>, i: nat, j: nat)
  {
    i < j < |edits| && InsertsAt(edits[i], edits[j].start) && ReplacesAt(edits[j], edits[i].start)
  }

  lemma {:induction false} WellListedOrMisplaced(edits: seq<Edit>, n: nat)
    requires Apart(edits, n)
    ensures WellListed(edits, n) <==> forall i: nat, j: nat :: !Misplaced(edits, i, j)
  {
    if WellListed(edits, n) {
      forall i: nat, j: nat ensures !Misplaced(edits, i, j) {
        if i < j < |edits| { assert Compatible(edits[i], edits[j]); }
      }
    } else {
      var i: nat, j: nat :| i < j < |edits| && !Compatible(edits[i], edits[j]);
      assert Misplaced(edits, i, j);
    }
  }

  /** The spans with other texts. */
  function WithTexts(spans: seq<Edit>, texts: seq<string>): (r: seq<Edit>)
    requires |texts| == |spans|
    ensures |r| == |spans|
  {
    seq(|spans|, i requires 0 <= i < |spans| => Edit(spans[i].start, spans[i].end, texts[i]))
  }

  /** Texts that give a misplaced pair away: every other edit puts back what it replaces. */
  function Telling(text: string, spans: seq<Edit>, i: nat, j: nat): (r: seq<string>)
    requires WithinBounds(spans, |text|)
    ensures |r| == |spans|
  {
    seq(|spans|, k requires 0 <= k < |spans| =>
      if k == i then "x" else if k == j then "y" else text[spans[k].start..spans[k].end])
  }

  ghost predicate Tells(text: string, edits: seq<Edit>, i: nat, j: nat)
  {
    && Apart(edits, |text|) && Misplaced(edits, i, j)
    && edits[i].replacement == "x" && edits[j].replacement == "y"
    && forall k :: 0 <= k < |edits| && k != i && k != j ==>
         edits[k].replacement == text[edits[k].start..edits[k].end]
  }

  /** All at once, the insertion's text stands at the common start. */
  lemma {:induction false} TellsBefore(text: string, edits: seq<Edit>, i: nat, j: nat, p: nat)
    requires Tells(text, edits, i, j) && p <= edits[i].start
    ensures AllAtOnce(text, edits, p) == text[p..edits[i].start] + AllAtOnce(text, edits, edits[i].start)
    decreases edits[i].start - p
  {
    var s := edits[i].start;
    if p < s {
      NoTextInserted(text, edits, i, j, p);
      var k := ReplacedAt(edits, p);
      var q := if k >= 0 then edits[k].end else p + 1;
      StandsUpTo(text, edits, i, j, p);
      TellsBefore(text, edits, i, j, q);
      Regroup(text[p..q], text[q..s], AllAtOnce(text, edits, s));
      assert text[p..s] == text[p..q] + text[q..s];
    }
  }

  /** Before the common start, the text is copied up to the next place. */
  lemma {:induction false} StandsUpTo(text: string, edits: seq<Edit>, i: nat, j: nat, p: nat)
    requires Tells(text, edits, i, j) && p < edits[i].start && InsertedAt(edits, p) == ""
    ensures var k := ReplacedAt(edits, p);
      var q := if k >= 0 then edits[k].end else p + 1;
      p < q <= edits[i].start && AllAtOnce(text, edits, p) == text[p..q] + AllAtOnce(text, edits, q)
  {
    var k := ReplacedAt(edits, p);
    if k >= 0 {
      assert k != i && k != j && edits[k].end <= edits[i].start;
    } else {
      assert text[p..p + 1] == [text[p]];
    }
  }

  lemma {:induction false} NoTextInserted(text: string, edits: seq<Edit>, i: nat, j: nat, p: nat)
    requires Tells(text, edits, i, j) && p < edits[i].start
    ensures InsertedAt(edits, p) == ""
  {
    if exists x :: x in edits && InsertsAt(x, p) {
      var x :| x in edits && InsertsAt(x, p);
      var k :| 0 <= k < |edits| && edits[k] == x;
      assert x.replacement == text[p..p] == "";
      InsertedIs(edits, p, x);
    } else {
      NothingInserted(edits, p);
    }
  }

  lemma {:induction false} TellsAtOnce(text: string, edits: seq<Edit>, i: nat, j: nat)
    requires Tells(text, edits, i, j)
    ensures |AllAtOnce(text, edits, 0)| > edits[i].start
    ensures AllAtOnce(text, edits, 0)[edits[i].start] == 'x'
  {
    TellsBefore(text, edits, i, j, 0);
    InsertedIs(edits, edits[i].start, edits[i]);
  }

  /** The edits that start at a position, as listed. */
  function At(edits: seq<Edit>, s: nat): seq<Edit>
  {
    if edits == [] then []
    else At(edits[..|edits| - 1], s) + if edits[|edits| - 1].start == s then [edits[|edits| - 1]] else []
  }

  lemma {:induction false} AtPair(edits: seq<Edit>, i: nat, j: nat, n: nat)
    requires i < j < |edits| && n <= |edits| && edits[i].start == edits[j].start
    requires forall k :: 0 <= k < |edits| && k != i && k != j ==> edits[k].start != edits[i].start
    ensures At(edits[..n], edits[i].start) == if n <= i then [] else if n <= j then [edits[i]] else [edits[i], edits[j]]
  {
    if n > 0 {
      AtPair(edits, i, j, n - 1);
      assert edits[..n][..n - 1] == edits[..n - 1];
    }
  }

  lemma {:induction false} InsertPast(front: seq<Edit>, rest: seq<Edit>, e: Edit)
    requires forall x :: x in front ==> x.start >= e.start
    ensures InsertByStart(front + rest, e) == front + InsertByStart(rest, e)
    decreases |front|
  {
    if front == [] {
      assert front + rest == rest;
    } else {
      assert front[0] in front && (front + rest)[1..] == front[1..] + rest;
      InsertPast(front[1..], rest, e);
    }
  }

  lemma {:induction false} InsertWithin(front: seq<Edit>, rest: seq<Edit>, e: Edit)
    requires forall x :: x in rest ==> x.start < e.start
    ensures InsertByStart(front + rest, e) == InsertByStart(front, e) + rest
    decreases |front|
  {
    if front == [] {
      assert front + rest == rest && (rest != [] ==> rest[0] in rest);
    } else {
      assert (front + rest)[1..] == front[1..] + rest;
      InsertWithin(front[1..], rest, e);
    }
  }

  lemma {:induction false} InsertSplits(above: seq<Edit>, at: seq<Edit>, below: seq<Edit>, s: nat, e: Edit)
    requires forall x :: x in above ==> x.start > s
    requires (forall x :: x in at ==> x.start == s) && (forall x :: x in below ==> x.start < s)
    ensures e.start > s ==> InsertByStart(above + at + below, e) == InsertByStart(above, e) + at + below
    ensures e.start == s ==> InsertByStart(above + at + below, e) == above + (at + [e]) + below
    ensures e.start < s ==> InsertByStart(above + at + below, e) == above + at + InsertByStart(below, e)
  {
    if e.start > s {
      assert above + at + below == above + (at + below);
      forall x | x in at + below ensures x.start < e.start {}
      InsertWithin(above, at + below, e);
      assert InsertByStart(above, e) + (at + below) == InsertByStart(above, e) + at + below;
    } else {
      forall x | x in above + at ensures x.start >= e.start {}
      InsertPast(above + at, below, e);
      if e.start == s {
        InsertAhead(below, e);
        assert above + at + ([e] + below) == above + (at + [e]) + below;
      }
    }
  }

  lemma InsertAhead(rest: seq<Edit>, e: Edit)
    requires forall x :: x in rest ==> x.start < e.start
    ensures InsertByStart(rest, e) == [e] + rest
  {
    assert rest != [] ==> rest[0] in rest;
  }

  /** `above` and `below` are edits of the list that start after and before `s`. */
  ghost predicate Sides(edits: seq<Edit>, s: nat, above: seq<Edit>, below: seq<Edit>)
  {
    (forall x :: x in above ==> x in edits && x.start > s) && (forall x :: x in below ==> x in edits && x.start < s)
  }

  lemma {:induction false} AtStart(edits: seq<Edit>, s: nat)
    ensures forall x :: x in At(edits, s) ==> x.start == s
  {
    if edits != [] {
      AtStart(edits[..|edits| - 1], s);
    }
  }

  lemma SidesNext(front: seq<Edit>, last: Edit, s: nat, above: seq<Edit>, below: seq<Edit>)
    requires Sides(front, s, above, below)
    ensures last.start > s ==> Sides(front + [last], s, InsertByStart(above, last), below)
    ensures last.start == s ==> Sides(front + [last], s, above, below)
    ensures last.start < s ==> Sides(front + [last], s, above, InsertByStart(below, last))
  {
    InsertAdds(above, last);
    InsertAdds(below, last);
  }

  lemma OneMoreSorted(edits: seq<Edit>, s: nat)
    requires edits != []
    ensures var front, last := edits[..|edits| - 1], edits[|edits| - 1];
      && edits == front + [last] && ByStart(edits) == InsertByStart(ByStart(front), last)
      && At(edits, s) == if last.start == s then At(front, s) + [last] else At(front, s)
  {
  }

  /** Sorting keeps the edits at one start together, as they were listed. */
  lemma {:induction false} SortSplits(edits: seq<Edit>, s: nat) returns (above: seq<Edit>, below: seq<Edit>)
    ensures ByStart(edits) == above + At(edits, s) + below && Sides(edits, s, above, below)
    decreases |edits|
  {
    above, below := [], [];
    if edits != [] {
      var front, last := edits[..|edits| - 1], edits[|edits| - 1];
      above, below := SortSplits(front, s);
      var at := At(front, s);
      OneMoreSorted(edits, s);
      AtStart(front, s);
      SidesNext(front, last, s, above, below);
      InsertSplits(above, at, below, s, last);
      if last.start > s {
        above := InsertByStart(above, last);
      } else if last.start < s {
        below := InsertByStart(below, last);
      }
    }
  }

  lemma {:induction false} ApplyAppend(text: string, a: seq<Edit>, b: seq<Edit>)
    ensures ApplyInOrder(text, a + b) == ApplyInOrder(ApplyInOrder(text, a), b)
    decreases |a|
  {
    if a == [] {
      assert a + b == b;
    } else {
      assert (a + b)[1..] == a[1..] + b;
      ApplyAppend(ApplyOne(text, a[0]), a[1..], b);
    }
  }

  lemma SameSlice(now: string, text: string, n: nat, a: nat, b: nat)
    requires a <= b <= n <= |now| && n <= |text| && now[..n] == text[..n]
    ensures now[a..b] == text[a..b]
  {
    forall k | a <= k < b ensures now[k] == text[k] {
      assert now[..n][k] == text[..n][k];
    }
  }

  /** Edits that put back what they replace change nothing. */
  lemma {:induction false} PuttingBack(now: string, text: string, edits: seq<Edit>, s: nat)
    requires s <= |now| && s <= |text| && now[..s] == text[..s]
    requires forall e :: e in edits ==> e.start <= e.end <= s && e.replacement == text[e.start..e.end]
    ensures ApplyInOrder(now, edits) == now
    decreases |edits|
  {
    if edits != [] {
      var e := edits[0];
      assert e in edits;
      SameSlice(now, text, s, e.start, e.end);
      assert ApplyOne(now, e) == now;
      PuttingBack(now, text, edits[1..], s);
    }
  }

  /** Applied from the right, the replacement's text stands there instead. */
  lemma {:induction false} TellsInOrder(text: string, edits: seq<Edit>, i: nat, j: nat)
    requires Tells(text, edits, i, j)
    ensures |ApplyInOrder(text, ByStart(edits))| > edits[i].start
    ensures ApplyInOrder(text, ByStart(edits))[edits[i].start] == 'y'
  {
    var s, pair := edits[i].start, [edits[i], edits[j]];
    var above, below := SortSplits(edits, s);
    AtPair(edits, i, j, |edits|);
    assert edits[..|edits|] == edits;
    ApplyAppend(text, above + pair, below);
    ApplyAppend(text, above, pair);
    PutBackAround(text, edits, i, j, above, |text|);
    PuttingBack(text, text, above, |text|);
    var replaced := Overwritten(text, edits[i], edits[j]);
    PutBackAround(text, edits, i, j, below, s);
    PuttingBack(replaced, text, below, s);
  }

  lemma {:induction false} Overwritten(text: string, insertion: Edit, replacement: Edit) returns (after: string)
    requires replacement.start < replacement.end <= |text| && InsertsAt(insertion, replacement.start)
    requires |insertion.replacement| == 1 == |replacement.replacement|
    ensures after == ApplyInOrder(text, [insertion, replacement])
    ensures |after| > replacement.start && after[replacement.start] == replacement.replacement[0]
    ensures after[..replacement.start] == text[..replacement.start]
  {
    var pair := [insertion, replacement];
    var inserted := ApplyOne(text, insertion);
    after := ApplyOne(inserted, replacement);
    assert pair[1..] == [replacement] && [replacement][1..] == [];
    assert ApplyInOrder(text, pair) == ApplyInOrder(inserted, [replacement]) == ApplyInOrder(after, []);
  }

  lemma {:induction false} PutBackAround(text: string, edits: seq<Edit>, i: nat, j: nat, some: seq<Edit>, n: nat)
    requires Tells(text, edits, i, j) && forall x :: x in some ==> x in edits && x.start != edits[i].start
    requires n == |text| || (n == edits[i].start && forall x :: x in some ==> x.start < n)
    ensures forall x :: x in some ==> x.start <= x.end <= n && x.replacement == text[x.start..x.end]
  {
    forall x | x in some ensures x.start <= x.end <= n && x.replacement == text[x.start..x.end] {
      var k :| 0 <= k < |edits| && edits[k] == x;
    }
  }

  /** Applying the edits in the code's order makes them all at once. */
  ghost predicate Simultaneous(text: string, edits: seq<Edit>)
  {
    WithinBounds(edits, |text|) && ApplyInOrder(text, ByStart(edits)) == AllAtOnce(text, edits, 0)
  }

  /** A misplaced pair: an insertion listed before the replacement of the character behind it is
      swallowed. */
  lemma InsertionIsSwallowed()
    ensures var edits := [Edit(0, 0, "x"), Edit(0, 1, "y")];
      Apart(edits, 2) && !Simultaneous("ab", edits)
  {
    var edits := [Edit(0, 0, "x"), Edit(0, 1, "y")];
    TellsAtOnce("ab", edits, 0, 1);
    TellsInOrder("ab", edits, 0, 1);
  }

  /** Right-to-left application of disjoint edits is simultaneous replacement, whatever their
      texts, exactly when no insertion is listed before a replacement with its start. */
  lemma SimultaneousExactlyWhenWellListed(text: string, spans: seq<Edit>)
    requires Apart(spans, |text|)
    ensures WellListed(spans, |text|) <==>
      (forall texts: seq<string> :: |texts| == |spans| ==> Simultaneous(text, WithTexts(spans, texts)))
  {
    WellListedOrMisplaced(spans, |text|);
    if WellListed(spans, |text|) {
      forall texts: seq<string> | |texts| == |spans| ensures Simultaneous(text, WithTexts(spans, texts)) {
        RightToLeftIsAllAtOnce(text, WithTexts(spans, texts));
      }
    } else {
      var i: nat, j: nat :| Misplaced(spans, i, j);
      var texts := Telling(text, spans, i, j);
      var edits := WithTexts(spans, texts);
      TellsAtOnce(text, edits, i, j);
      TellsInOrder(text, edits, i, j);
      assert !Simultaneous(text, edits);
    }
  }

  // ---- edits inside a part of a larger text ----------------------------------------------

  function Shifted(edits: seq<Edit>, offset: nat): (r: seq<Edit>)
    ensures |r| == |edits|
  {
    seq(|edits|, i requires 0 <= i < |edits| =>
      Edit(edits[i].start + offset, edits[i].end + offset, edits[i].replacement))
  }

  lemma {:induction false} ShiftedLookups(edits: seq<Edit>, offset: nat, p: nat)
    ensures p < offset ==> InsertedAt(Shifted(edits, offset), p) == "" && ReplacedAt(Shifted(edits, offset), p) < 0
    ensures p >= offset ==>
      && InsertedAt(Shifted(edits, offset), p) == InsertedAt(edits, p - offset)
      && ReplacedAt(Shifted(edits, offset), p) == ReplacedAt(edits, p - offset)
  {
    if edits != [] {
      assert Shifted(edits, offset)[1..] == Shifted(edits[1..], offset);
      ShiftedLookups(edits[1..], offset, p);
    }
  }

  lemma {:induction false} NothingPast(edits: seq<Edit>, n: nat, p: nat)
    requires WithinBounds(edits, n) && p > n
    ensures InsertedAt(edits, p) == "" && ReplacedAt(edits, p) < 0
  {
    if edits != [] {
      NothingPast(edits[1..], n, p);
    }
  }

  /** Past the part that is edited, the text stands. */
  lemma {:induction false} AllAtOncePast(text: string, edits: seq<Edit>, n: nat, p: nat)
    requires WithinBounds(edits, n) && n < p <= |text|
    ensures AllAtOnce(text, edits, p) == text[p..]
    decreases |text| - p
  {
    NothingPast(edits, n, p);
    if p < |text| {
      AllAtOncePast(text, edits, n, p + 1);
      assert text[p..] == [text[p]] + text[p + 1..];
    }
  }

  lemma Regroup(a: string, b: string, c: string)
    ensures a + (b + c) == (a + b) + c
  {
  }

  /** `whole` and `shifted` are a part and its edits seen from the text around it. */
  ghost predicate Around(whole: string, shifted: seq<Edit>, before: string, part: string, after: string,
                         edits: seq<Edit>)
  {
    && whole == before + part + after && shifted == Shifted(edits, |before|)
    && WithinBounds(edits, |part|) && WithinBounds(shifted, |whole|)
  }

  /** Inside the part, editing the whole is editing the part. */
  lemma {:induction false} AllAtOnceInside(whole: string, shifted: seq<Edit>, before: string, part: string,
                                           after: string, edits: seq<Edit>, p: nat)
    requires Around(whole, shifted, before, part, after, edits) && p <= |part|
    ensures AllAtOnce(whole, shifted, |before| + p) == AllAtOnce(part, edits, p) + after
    decreases |part| - p, 1
  {
    ShiftedLookups(edits, |before|, |before| + p);
    AfterInsertionInside(whole, shifted, before, part, after, edits, p);
    Regroup(InsertedAt(edits, p), AfterInsertion(part, edits, p), after);
  }

  lemma {:induction false} AfterInsertionInside(whole: string, shifted: seq<Edit>, before: string, part: string,
                                                after: string, edits: seq<Edit>, p: nat)
    requires Around(whole, shifted, before, part, after, edits) && p <= |part|
    ensures AfterInsertion(whole, shifted, |before| + p) == AfterInsertion(part, edits, p) + after
    decreases |part| - p, 0
  {
    var i := ReplacedAt(edits, p);
    if i >= 0 {
      AllAtOnceInside(whole, shifted, before, part, after, edits, edits[i].end);
      ReplacedInside(whole, shifted, before, part, after, edits, p);
    } else if p < |part| {
      AllAtOnceInside(whole, shifted, before, part, after, edits, p + 1);
      CopiedInside(whole, shifted, before, part, after, edits, p);
    } else {
      AfterInsertionAtEnd(whole, shifted, before, part, after, edits);
    }
  }

  lemma {:induction false} AfterReplaced(text: string, edits: seq<Edit>, p: nat, e: Edit)
    requires WithinBounds(edits, |text|) && p <= |text|
    requires ReplacedAt(edits, p) >= 0 && e == edits[ReplacedAt(edits, p)]
    ensures AfterInsertion(text, edits, p) == e.replacement + AllAtOnce(text, edits, e.end)
  {
  }

  lemma {:induction false} ReplacedShifted(edits: seq<Edit>, offset: nat, p: nat) returns (e: Edit, moved: Edit)
    requires ReplacedAt(edits, p) >= 0
    ensures var s := Shifted(edits, offset);
      && ReplacedAt(s, offset + p) >= 0 && moved == s[ReplacedAt(s, offset + p)] && e == edits[ReplacedAt(edits, p)]
      && moved.replacement == e.replacement && moved.end == offset + e.end
  {
    ShiftedLookups(edits, offset, offset + p);
    e, moved := edits[ReplacedAt(edits, p)], Shifted(edits, offset)[ReplacedAt(edits, p)];
  }

  lemma {:induction false} ReplacedInside(whole: string, shifted: seq<Edit>, before: string, part: string,
                                          after: string, edits: seq<Edit>, p: nat)
    requires Around(whole, shifted, before, part, after, edits) && p <= |part| && ReplacedAt(edits, p) >= 0
    requires var end := edits[ReplacedAt(edits, p)].end;
      AllAtOnce(whole, shifted, |before| + end) == AllAtOnce(part, edits, end) + after
    ensures AfterInsertion(whole, shifted, |before| + p) == AfterInsertion(part, edits, p) + after
  {
    var e, moved := ReplacedShifted(edits, |before|, p);
    AfterReplaced(whole, shifted, |before| + p, moved);
    AfterReplaced(part, edits, p, e);
    Joined(AfterInsertion(whole, shifted, |before| + p), AfterInsertion(part, edits, p), e.replacement,
           AllAtOnce(whole, shifted, moved.end), AllAtOnce(part, edits, e.end), after);
  }

  lemma Joined(x: string, y: string, r: string, u: string, w: string, after: string)
    requires x == r + u && y == r + w && u == w + after
    ensures x == y + after
  {
  }

  lemma {:induction false} CopiedInside(whole: string, shifted: seq<Edit>, before: string, part: string,
                                        after: string, edits: seq<Edit>, p: nat)
    requires Around(whole, shifted, before, part, after, edits) && p < |part| && ReplacedAt(edits, p) < 0
    requires AllAtOnce(whole, shifted, |before| + p + 1) == AllAtOnce(part, edits, p + 1) + after
    ensures AfterInsertion(whole, shifted, |before| + p) == AfterInsertion(part, edits, p) + after
  {
    ShiftedLookups(edits, |before|, |before| + p);
    Regroup([part[p]], AllAtOnce(part, edits, p + 1), after);
    assert whole[|before| + p] == part[p];
  }

  lemma {:induction false} AfterInsertionAtEnd(whole: string, shifted: seq<Edit>, before: string, part: string,
                                               after: string, edits: seq<Edit>)
    requires Around(whole, shifted, before, part, after, edits) && ReplacedAt(edits, |part|) < 0
    ensures AfterInsertion(whole, shifted, |before| + |part|) == after == AfterInsertion(part, edits, |part|) + after
  {
    var q := |before| + |part|;
    ShiftedLookups(edits, |before|, q);
    if after != [] {
      AllAtOncePast(whole, shifted, q, q + 1);
      assert whole[q] == after[0] && [after[0]] + whole[q + 1..] == after;
    }
  }

  /** Ahead of the part, the text stands. */
  lemma {:induction false} AllAtOnceBefore(whole: string, shifted: seq<Edit>, before: string, part: string,
                                           after: string, edits: seq<Edit>, p: nat)
    requires Around(whole, shifted, before, part, after, edits) && p <= |before|
    ensures AllAtOnce(whole, shifted, p) == before[p..] + (AllAtOnce(part, edits, 0) + after)
    decreases |before| - p
  {
    if p == |before| {
      AllAtOnceInside(whole, shifted, before, part, after, edits, 0);
    } else {
      CopiedBefore(whole, shifted, before, part, after, edits, p);
      AllAtOnceBefore(whole, shifted, before, part, after, edits, p + 1);
      assert before[p..] == [before[p]] + before[p + 1..];
      Regroup([before[p]], before[p + 1..], AllAtOnce(part, edits, 0) + after);
    }
  }

  lemma {:induction false} CopiedBefore(whole: string, shifted: seq<Edit>, before: string, part: string,
                                        after: string, edits: seq<Edit>, p: nat)
    requires Around(whole, shifted, before, part, after, edits) && p < |before|
    ensures AllAtOnce(whole, shifted, p) == [before[p]] + AllAtOnce(whole, shifted, p + 1)
  {
    ShiftedLookups(edits, |before|, p);
    assert whole[p] == before[p];
  }

  /** Editing a part and putting it back is editing the whole, every span shifted. */
  lemma {:induction false} EditsOfAPart(before: string, part: string, after: string, edits: seq<Edit>)
    requires WithinBounds(edits, |part|)
    ensures WithinBounds(Shifted(edits, |before|), |before + part + after|)
    ensures before + AllAtOnce(part, edits, 0) + after
         == AllAtOnce(before + part + after, Shifted(edits, |before|), 0)
  {
    AllAtOnceBefore(before + part + after, Shifted(edits, |before|), before, part, after, edits, 0);
    assert before[0..] == before;
    Regroup(before, AllAtOnce(part, edits, 0), after);
  }
}
