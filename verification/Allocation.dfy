/** Whole-document id allocation, and its stability under deleting headings. */
module Allocation {
  import opened Slugger

  datatype Heading = Heading(text: string, level: nat, line: nat)

  /** One heading with the id it was given and every candidate examined for it. */
  datatype SluggedHeading =
    SluggedHeading(text: string, level: nat, line: nat, githubId: string, probes: seq<string>)

  function Elements(ids: seq<string>): set<string>
  {
    set id | id in ids
  }

  lemma ElementsAppend(ids: seq<string>, id: string)
    ensures Elements(ids + [id]) == Elements(ids) + {id}
  {
  }

  /** The ids the naive rule gives to base slugs in document order. */
  function NaiveIds(bases: seq<string>): (ids: seq<string>)
    ensures |ids| == |bases|
  {
    if bases == [] then []
    else
      var before := NaiveIds(bases[..|bases| - 1]);
      before + [Naive(bases[|bases| - 1], Elements(before))]
  }

  function BasesOf(inventory: seq<SluggedHeading>, slugOf: string -> string): seq<string>
  {
    seq(|inventory|, i requires 0 <= i < |inventory| => slugOf(inventory[i].text))
  }

  function IdsBefore(inventory: seq<SluggedHeading>, i: nat): set<string>
    requires i <= |inventory|
  {
    set g | 0 <= g < i :: inventory[g].githubId
  }

  /** Some heading before the n-th with base `b` examined the base's j-th candidate. */
  ghost predicate Examined(inventory: seq<SluggedHeading>, slugOf: string -> string, n: nat,
                           b: string, j: nat)
  {
    exists i :: 0 <= i < n && i < |inventory| && slugOf(inventory[i].text) == b
             && Candidate(b, j) in inventory[i].probes
  }

  /** Some heading before the n-th with base `b` examined each of its candidates up to the k-th. */
  ghost predicate ExaminedUpTo(inventory: seq<SluggedHeading>, slugOf: string -> string, n: nat,
                               b: string, k: nat)
  {
    forall j :: 0 <= j <= k ==> Examined(inventory, slugOf, n, b, j)
  }

  /** What an allocation trace promises of its i-th record. */
  ghost predicate TracedAt(inventory: seq<SluggedHeading>, slugOf: string -> string, i: nat)
    requires i < |inventory|
  {
    var h, b := inventory[i], slugOf(inventory[i].text);
    var k := LeastFree(b, IdsBefore(inventory, i), 0);
    && h.githubId == Candidate(b, k)
    && b in h.probes
    && (forall p :: p in h.probes ==> p == h.githubId || p in IdsBefore(inventory, i))
    && ExaminedUpTo(inventory, slugOf, i + 1, b, k)
  }

  ghost predicate Traced(inventory: seq<SluggedHeading>, slugOf: string -> string)
  {
    forall i :: 0 <= i < |inventory| ==> TracedAt(inventory, slugOf, i)
  }

  lemma ExaminedLater(a: seq<SluggedHeading>, h: SluggedHeading, slugOf: string -> string, n: nat,
                      b: string, j: nat)
    requires n <= |a| && Examined(a, slugOf, n, b, j)
    ensures Examined(a + [h], slugOf, n, b, j)
  {
    var i :| 0 <= i < n && i < |a| && slugOf(a[i].text) == b && Candidate(b, j) in a[i].probes;
    assert (a + [h])[i] == a[i];
  }

  lemma IdsBeforePrefix(a: seq<SluggedHeading>, h: SluggedHeading, i: nat)
    requires i <= |a|
    ensures IdsBefore(a + [h], i) == IdsBefore(a, i)
  {
    assert forall g :: 0 <= g < i ==> (a + [h])[g] == a[g];
  }

  lemma ExaminedUpToLater(a: seq<SluggedHeading>, h: SluggedHeading, slugOf: string -> string, n: nat,
                          b: string, k: nat)
    requires n <= |a| && ExaminedUpTo(a, slugOf, n, b, k)
    ensures ExaminedUpTo(a + [h], slugOf, n, b, k)
  {
    forall j | 0 <= j <= k ensures Examined(a + [h], slugOf, n, b, j) {
      ExaminedLater(a, h, slugOf, n, b, j);
    }
  }

  lemma TracedLater(a: seq<SluggedHeading>, h: SluggedHeading, slugOf: string -> string, i: nat)
    requires i < |a| && TracedAt(a, slugOf, i)
    ensures TracedAt(a + [h], slugOf, i)
  {
    assert (a + [h])[i] == a[i];
    IdsBeforePrefix(a, h, i);
    var b := slugOf(a[i].text);
    ExaminedUpToLater(a, h, slugOf, i + 1, b, LeastFree(b, IdsBefore(a, i), 0));
  }

  lemma TracedPrefix(a: seq<SluggedHeading>, h: SluggedHeading, slugOf: string -> string)
    requires Traced(a, slugOf) && TracedAt(a + [h], slugOf, |a|)
    ensures Traced(a + [h], slugOf)
  {
    forall i | 0 <= i < |a| ensures TracedAt(a + [h], slugOf, i) {
      TracedLater(a, h, slugOf, i);
    }
  }

  /** A probe list reaches every candidate its heading needed, given what came before. */
  lemma ProbesReach(a: seq<SluggedHeading>, h: SluggedHeading, slugOf: string -> string,
                    counter: nat, k: nat)
    requires ProbesFrom(h.probes, slugOf(h.text), counter, k)
    requires forall j :: 1 <= j <= counter && k > 0 ==> Examined(a, slugOf, |a|, slugOf(h.text), j)
    ensures ExaminedUpTo(a + [h], slugOf, |a| + 1, slugOf(h.text), k)
  {
    var b, n := slugOf(h.text), |a| + 1;
    assert (a + [h])[|a|] == h;
    forall j | 0 <= j <= k ensures Examined(a + [h], slugOf, n, b, j) {
      if 1 <= j <= counter {
        ExaminedLater(a, h, slugOf, |a|, b, j);
      } else if j > 0 {
        assert h.probes[j - counter] == Candidate(b, j);
      } else {
        assert h.probes[0] == Candidate(b, 0);
      }
    }
  }

  lemma ProbesHeld(probes: seq<string>, b: string, counter: nat, k: nat, taken: set<string>, i: nat)
    requires ProbesFrom(probes, b, counter, k) && i < |probes|
    requires forall j :: 0 <= j < k ==> Candidate(b, j) in taken
    ensures probes[i] == Candidate(b, k) || probes[i] in taken
    ensures b in probes
  {
    if k > 0 {
      assert probes[0] == b == Candidate(b, 0);
      if i > 0 { assert probes[i] == Candidate(b, counter + i); }
    }
    assert probes[0] == b;
  }

  predicate Records(record: SluggedHeading, heading: Heading) {
    record.text == heading.text && record.level == heading.level && record.line == heading.line
  }

  /** Every suffix a counter has passed was examined by a heading with that base. */
  ghost predicate CountersExamined(inventory: seq<SluggedHeading>, slugOf: string -> string,
                                   seen: map<string, nat>)
  {
    forall b, j :: b in seen && 1 <= j <= seen[b] ==> Examined(inventory, slugOf, |inventory|, b, j)
  }

  lemma CountersStillExamined(a: seq<SluggedHeading>, h: SluggedHeading, slugOf: string -> string,
                              before: map<string, nat>, now: map<string, nat>, k: nat)
    requires CountersExamined(a, slugOf, before)
    requires now.Keys == before.Keys + {h.githubId} && slugOf(h.text) in now
    requires forall b :: b in before && b != slugOf(h.text) ==> now[b] == before[b]
    requires now[slugOf(h.text)] == k && (h.githubId != slugOf(h.text) ==> now[h.githubId] == 0)
    requires h.githubId !in before
    requires ExaminedUpTo(a + [h], slugOf, |a| + 1, slugOf(h.text), k)
    ensures CountersExamined(a + [h], slugOf, now)
  {
    var n := |a + [h]|;
    forall b, j | b in now && 1 <= j <= now[b] ensures Examined(a + [h], slugOf, n, b, j) {
      if b != slugOf(h.text) {
        assert b in before;
        ExaminedLater(a, h, slugOf, |a|, b, j);
      }
    }
  }

  /** Allocate one heading's id and append its record. */
  method AppendHeading(slugger: Slugger, inventory: seq<SluggedHeading>, heading: Heading)
    returns (longer: seq<SluggedHeading>)
    requires Counted(slugger.seen) && Traced(inventory, slugger.slugOf)
    requires slugger.seen.Keys == IdsBefore(inventory, |inventory|)
    requires CountersExamined(inventory, slugger.slugOf, slugger.seen)
    modifies slugger
    ensures Counted(slugger.seen) && Traced(longer, slugger.slugOf)
    ensures slugger.seen.Keys == IdsBefore(longer, |longer|)
    ensures CountersExamined(longer, slugger.slugOf, slugger.seen)
    ensures exists h :: longer == inventory + [h] && Records(h, heading)
  {
    ghost var before, base := slugger.seen, slugger.slugOf(heading.text);
    ghost var counter := if base in before then before[base] else 0;
    var id, probes;
    ghost var k;
    id, probes, k := slugger.SlugWithProbes(heading.text);
    var h := SluggedHeading(heading.text, heading.level, heading.line, id, probes);
    Recorded(inventory, h, slugger.slugOf, before.Keys, counter, k);
    CountersStillExamined(inventory, h, slugger.slugOf, before, slugger.seen, k);
    longer := inventory + [h];
  }

  /** Allocate an id to every heading in document order, recording the trace. */
  method HeadingInventory(headings: seq<Heading>, slugOf: string -> string)
    returns (inventory: seq<SluggedHeading>)
    ensures |inventory| == |headings| && Traced(inventory, slugOf)
    ensures forall i :: 0 <= i < |headings| ==> Records(inventory[i], headings[i])
  {
    var slugger := new Slugger(slugOf);
    inventory := [];
    for i := 0 to |headings|
      invariant fresh(slugger) && slugger.slugOf == slugOf && Counted(slugger.seen)
      invariant |inventory| == i && Traced(inventory, slugOf)
      invariant slugger.seen.Keys == IdsBefore(inventory, |inventory|)
      invariant CountersExamined(inventory, slugOf, slugger.seen)
      invariant forall l :: 0 <= l < i ==> Records(inventory[l], headings[l])
    {
      inventory := AppendHeading(slugger, inventory, headings[i]);
    }
  }

  lemma Recorded(a: seq<SluggedHeading>, h: SluggedHeading, slugOf: string -> string,
                 taken: set<string>, counter: nat, k: nat)
    requires Traced(a, slugOf) && taken == IdsBefore(a, |a|)
    requires h.githubId == Naive(slugOf(h.text), taken) == Candidate(slugOf(h.text), k)
    requires ProbesFrom(h.probes, slugOf(h.text), counter, k)
    requires forall j :: 1 <= j <= counter && slugOf(h.text) in taken ==>
      Examined(a, slugOf, |a|, slugOf(h.text), j)
    ensures Traced(a + [h], slugOf)
    ensures ExaminedUpTo(a + [h], slugOf, |a| + 1, slugOf(h.text), k)
    ensures IdsBefore(a + [h], |a| + 1) == taken + {h.githubId}
  {
    var b := slugOf(h.text);
    CandidatesDiffer(b, k, LeastFree(b, taken, 0));
    if k > 0 { assert Candidate(b, 0) in taken; }
    ProbesReach(a, h, slugOf, counter, k);
    IdsBeforePrefix(a, h, |a|);
    forall p | p in h.probes ensures p == h.githubId || p in taken {
      var i :| 0 <= i < |h.probes| && h.probes[i] == p;
      ProbesHeld(h.probes, b, counter, k, taken, i);
    }
    ProbesHeld(h.probes, b, counter, k, taken, 0);
    TracedPrefix(a, h, slugOf);
    assert forall g :: 0 <= g < |a| ==> (a + [h])[g] == a[g];
  }

  // ---- what a trace means ------------------------------------------------------------

  lemma NaiveIdsStep(bases: seq<string>, b: string)
    ensures NaiveIds(bases + [b]) == NaiveIds(bases) + [Naive(b, Elements(NaiveIds(bases)))]
  {
    assert (bases + [b])[..|bases|] == bases;
  }

  /** The traced ids are pairwise distinct. */
  lemma TraceIsDistinct(inventory: seq<SluggedHeading>, slugOf: string -> string)
    requires Traced(inventory, slugOf)
    ensures forall g, i :: 0 <= g < i < |inventory| ==> inventory[g].githubId != inventory[i].githubId
  {
    forall g, i | 0 <= g < i < |inventory|
      ensures inventory[g].githubId != inventory[i].githubId
    {
      assert TracedAt(inventory, slugOf, i);
      assert inventory[g].githubId in IdsBefore(inventory, i);
    }
  }

  /** The traced ids are the ones the naive rule gives. */
  lemma {:induction false} TraceIsNaive(inventory: seq<SluggedHeading>, slugOf: string -> string, n: nat)
    requires Traced(inventory, slugOf) && n <= |inventory|
    ensures forall i :: 0 <= i < n ==>
      NaiveIds(BasesOf(inventory, slugOf)[..n])[i] == inventory[i].githubId
  {
    if n == 0 { return; }
    TraceIsNaive(inventory, slugOf, n - 1);
    var bases := BasesOf(inventory, slugOf);
    assert bases[..n] == bases[..n - 1] + [bases[n - 1]];
    NaiveIdsStep(bases[..n - 1], bases[n - 1]);
    TracedElements(NaiveIds(bases[..n - 1]), inventory, n - 1);
    TracedIsNaive(inventory, slugOf, n - 1);
  }

  lemma TracedIsNaive(inventory: seq<SluggedHeading>, slugOf: string -> string, i: nat)
    requires Traced(inventory, slugOf) && i < |inventory|
    ensures inventory[i].githubId == Naive(BasesOf(inventory, slugOf)[i], IdsBefore(inventory, i))
  {
    assert TracedAt(inventory, slugOf, i);
  }

  lemma TracedElements(ids: seq<string>, inventory: seq<SluggedHeading>, n: nat)
    requires |ids| == n <= |inventory|
    requires forall g :: 0 <= g < n ==> ids[g] == inventory[g].githubId
    ensures Elements(ids) == IdsBefore(inventory, n)
  {
    forall g | 0 <= g < n ensures inventory[g].githubId in ids {
      assert ids[g] in ids;
    }
  }

  // ---- collision links ---------------------------------------------------------------

  /** Heading `a` examined a candidate that heading `b` already held. */
  predicate Linked(inventory: seq<SluggedHeading>, a: nat, b: nat)
  {
    b < a < |inventory| && inventory[b].githubId in inventory[a].probes
  }

  /** A union of collision components. */
  ghost predicate Closed(inventory: seq<SluggedHeading>, c: set<nat>)
  {
    forall a, b :: Linked(inventory, a, b) ==> (a in c <==> b in c)
  }

  /** Headings with the same base slug always share a component. */
  lemma SameBaseSameComponent(inventory: seq<SluggedHeading>, slugOf: string -> string,
                              c: set<nat>, a: nat, b: nat)
    requires Traced(inventory, slugOf) && Closed(inventory, c) && a < b < |inventory|
    requires slugOf(inventory[a].text) == slugOf(inventory[b].text)
    ensures a in c <==> b in c
  {
    var base := slugOf(inventory[a].text);
    assert TracedAt(inventory, slugOf, a) && TracedAt(inventory, slugOf, b);
    TraceIsDistinct(inventory, slugOf);
    if inventory[a].githubId == base {
      assert Linked(inventory, b, a);
    } else {
      var g :| 0 <= g < a && inventory[g].githubId == base;
      assert Linked(inventory, a, g) && Linked(inventory, b, g);
    }
  }

  /** A heading shares the component of whoever holds an id it examined. */
  lemma ProbedSharesComponent(inventory: seq<SluggedHeading>, slugOf: string -> string,
                              c: set<nat>, e: nat, g: nat)
    requires Traced(inventory, slugOf) && Closed(inventory, c) && e < |inventory| && g < |inventory|
    requires inventory[g].githubId in inventory[e].probes
    ensures g in c <==> e in c
  {
    TraceIsDistinct(inventory, slugOf);
    assert TracedAt(inventory, slugOf, e);
    if g != e {
      var h :| 0 <= h < e && inventory[h].githubId == inventory[g].githubId;
      assert h == g && Linked(inventory, e, g);
    }
  }

  /** Each candidate a heading could not take was examined by one with its base, no later. */
  lemma Examiner(inventory: seq<SluggedHeading>, slugOf: string -> string, i: nat, j: nat) returns (e: nat)
    requires Traced(inventory, slugOf) && i < |inventory|
    requires j <= LeastFree(slugOf(inventory[i].text), IdsBefore(inventory, i), 0)
    ensures e <= i && slugOf(inventory[e].text) == slugOf(inventory[i].text)
    ensures Candidate(slugOf(inventory[i].text), j) in inventory[e].probes
  {
    var b := slugOf(inventory[i].text);
    assert TracedAt(inventory, slugOf, i);
    assert Examined(inventory, slugOf, i + 1, b, j);
    e :| 0 <= e < i + 1 && slugOf(inventory[e].text) == b && Candidate(b, j) in inventory[e].probes;
  }

  /** Whoever held a candidate a heading could not take shares that heading's component, even
      where the counter let the heading skip it. */
  lemma HolderSharesComponent(inventory: seq<SluggedHeading>, slugOf: string -> string,
                              c: set<nat>, i: nat, j: nat, g: nat)
    requires Traced(inventory, slugOf) && Closed(inventory, c) && g < i < |inventory|
    requires inventory[g].githubId == Candidate(slugOf(inventory[i].text), j)
    requires j <= LeastFree(slugOf(inventory[i].text), IdsBefore(inventory, i), 0)
    ensures g in c <==> i in c
  {
    var e := Examiner(inventory, slugOf, i, j);
    ProbedSharesComponent(inventory, slugOf, c, e, g);
    if e < i {
      SameBaseSameComponent(inventory, slugOf, c, e, i);
    }
  }

  /** A heading linked to no other keeps exactly its base slug. */
  lemma UnlinkedKeepsBase(inventory: seq<SluggedHeading>, slugOf: string -> string, i: nat)
    requires Traced(inventory, slugOf) && i < |inventory|
    requires forall g :: !Linked(inventory, i, g)
    ensures inventory[i].githubId == slugOf(inventory[i].text)
  {
    assert TracedAt(inventory, slugOf, i);
    if inventory[i].githubId != slugOf(inventory[i].text) {
      var g :| 0 <= g < i && inventory[g].githubId == slugOf(inventory[i].text);
      assert Linked(inventory, i, g);
    }
  }

  // ---- deleting headings -------------------------------------------------------------

  /** The ids of the headings before the n-th that remain once `deleted` are gone. */
  ghost function Remaining(bases: seq<string>, deleted: set<nat>, n: nat): map<nat, string>
    requires n <= |bases|
  {
    if n == 0 then map[]
    else
      var before := Remaining(bases, deleted, n - 1);
      if n - 1 in deleted then before else before[n - 1 := Naive(bases[n - 1], before.Values)]
  }

  lemma {:induction false} RemainingDomain(bases: seq<string>, deleted: set<nat>, n: nat)
    requires n <= |bases|
    ensures forall i :: i in Remaining(bases, deleted, n) <==> 0 <= i < n && i !in deleted
  {
    if n > 0 {
      RemainingDomain(bases, deleted, n - 1);
    }
  }

  /** What survives of the allocation: outside `c` nothing moved, and inside it every id is
      one that some earlier heading of `c` held before. */
  ghost predicate Shifted(inventory: seq<SluggedHeading>, c: set<nat>, now: map<nat, string>, n: nat)
  {
    forall h :: h in now ==>
      && h < n <= |inventory|
      && if h in c then exists g :: 0 <= g <= h && g in c && now[h] == inventory[g].githubId
         else now[h] == inventory[h].githubId
  }

  /** One more heading outside `c` keeps its id; one inside takes over one `c` already held. */
  lemma NextShifts(inventory: seq<SluggedHeading>, slugOf: string -> string, c: set<nat>,
                   before: map<nat, string>, i: nat)
    requires Traced(inventory, slugOf) && Closed(inventory, c) && i < |inventory|
    requires Shifted(inventory, c, before, i)
    requires forall g :: 0 <= g < i && g !in c ==> g in before
    ensures var id := Naive(slugOf(inventory[i].text), before.Values);
      if i in c then exists g :: 0 <= g <= i && g in c && id == inventory[g].githubId
      else id == inventory[i].githubId
  {
    TraceIsDistinct(inventory, slugOf);
    assert TracedAt(inventory, slugOf, i);
    var b, taken := slugOf(inventory[i].text), IdsBefore(inventory, i);
    var k, k' := LeastFree(b, taken, 0), LeastFree(b, before.Values, 0);
    forall id | id in before.Values ensures id in taken {
      var h :| h in before && before[h] == id;
    }
    assert k' <= k;
    if k' < k {
      var g :| 0 <= g < i && inventory[g].githubId == Candidate(b, k');
      HolderSharesComponent(inventory, slugOf, c, i, k', g);
      assert g in before ==> before[g] != Candidate(b, k');
    }
  }

  lemma {:induction false} DeletionShifts(inventory: seq<SluggedHeading>, slugOf: string -> string,
                                          c: set<nat>, deleted: set<nat>, n: nat)
    requires Traced(inventory, slugOf) && Closed(inventory, c) && deleted <= c && n <= |inventory|
    ensures Shifted(inventory, c, Remaining(BasesOf(inventory, slugOf), deleted, n), n)
  {
    if n > 0 {
      var bases := BasesOf(inventory, slugOf);
      DeletionShifts(inventory, slugOf, c, deleted, n - 1);
      RemainingDomain(bases, deleted, n - 1);
      NextShifts(inventory, slugOf, c, Remaining(bases, deleted, n - 1), n - 1);
    }
  }

  /** The document without its deleted headings. */
  function Without(bases: seq<string>, deleted: set<nat>, n: nat): seq<string>
    requires n <= |bases|
  {
    if n == 0 then []
    else Without(bases, deleted, n - 1) + if n - 1 in deleted then [] else [bases[n - 1]]
  }

  /** One more heading, on both sides. */
  lemma OneMoreRemaining(bases: seq<string>, deleted: set<nat>, n: nat)
    requires 0 < n <= |bases|
    ensures var rest, before := Without(bases, deleted, n - 1), Remaining(bases, deleted, n - 1);
      if n - 1 in deleted
      then Without(bases, deleted, n) == rest && Remaining(bases, deleted, n) == before
      else && NaiveIds(Without(bases, deleted, n))
              == NaiveIds(rest) + [Naive(bases[n - 1], Elements(NaiveIds(rest)))]
           && Remaining(bases, deleted, n) == before[n - 1 := Naive(bases[n - 1], before.Values)]
           && n - 1 !in before
  {
    var rest := Without(bases, deleted, n - 1);
    if n - 1 in deleted {
      assert rest + [] == rest;
    } else {
      RemainingDomain(bases, deleted, n - 1);
      NaiveIdsStep(rest, bases[n - 1]);
    }
  }

  ghost predicate SameIds(ids: seq<string>, m: map<nat, string>)
  {
    Elements(ids) == m.Values
  }

  lemma SameAppend(ids: seq<string>, m: map<nat, string>, i: nat, id: string)
    requires i !in m && SameIds(ids, m)
    ensures SameIds(ids + [id], m[i := id])
  {
    var now := m[i := id];
    ElementsAppend(ids, id);
    forall v | v in m.Values ensures v in now.Values {
      var x :| x in m && m[x] == v;
      assert now[x] == v;
    }
    assert now[i] == id;
  }

  /** Numbering the remaining headings from scratch gives the same ids in the same order. */
  lemma {:induction false} RemainingIsReallocation(bases: seq<string>, deleted: set<nat>, n: nat)
    requires n <= |bases|
    ensures Reallocates(NaiveIds(Without(bases, deleted, n)), Remaining(bases, deleted, n),
                        bases, deleted, n)
  {
    if n == 0 { return; }
    RemainingIsReallocation(bases, deleted, n - 1);
    OneMoreRemaining(bases, deleted, n);
    if n - 1 in deleted {
      ReallocatesSkip(NaiveIds(Without(bases, deleted, n - 1)), Remaining(bases, deleted, n - 1),
                      bases, deleted, n);
    } else {
      ReallocatesNext(NaiveIds(Without(bases, deleted, n - 1)), Remaining(bases, deleted, n - 1),
                      bases, deleted, n, Naive(bases[n - 1], Remaining(bases, deleted, n - 1).Values));
    }
  }

  /** `ids`, in order, are what `m` gives to the headings before the n-th that remain. */
  ghost predicate Reallocates(ids: seq<string>, m: map<nat, string>, bases: seq<string>,
                              deleted: set<nat>, n: nat)
    requires n <= |bases|
  {
    && SameIds(ids, m) && |ids| == |Without(bases, deleted, n)|
    && forall h :: 0 <= h < n ==> Placed(ids, m, bases, deleted, h)
  }

  /** A remaining heading's id stands where the headings before it that remain end. */
  ghost predicate Placed(ids: seq<string>, m: map<nat, string>, bases: seq<string>, deleted: set<nat>, h: nat)
    requires h <= |bases|
  {
    h !in deleted ==>
      h in m && |Without(bases, deleted, h)| < |ids| && ids[|Without(bases, deleted, h)|] == m[h]
  }

  lemma ReallocatesSkip(ids: seq<string>, m: map<nat, string>, bases: seq<string>, deleted: set<nat>, n: nat)
    requires 0 < n <= |bases| && n - 1 in deleted && Reallocates(ids, m, bases, deleted, n - 1)
    ensures Reallocates(ids, m, bases, deleted, n)
  {
  }

  lemma {:induction false} ReallocatesNext(ids: seq<string>, m: map<nat, string>, bases: seq<string>, deleted: set<nat>,
                        n: nat, id: string)
    requires 0 < n <= |bases| && n - 1 !in deleted && Reallocates(ids, m, bases, deleted, n - 1)
    requires n - 1 !in m
    ensures Reallocates(ids + [id], m[n - 1 := id], bases, deleted, n)
  {
    SameAppend(ids, m, n - 1, id);
    var now, mine := ids + [id], m[n - 1 := id];
    forall h | 0 <= h < n ensures Placed(now, mine, bases, deleted, h) {
      assert h < n - 1 ==> Placed(ids, m, bases, deleted, h);
    }
  }

  /** Deleting headings of some components never changes the id given to a heading outside
      them: reallocating the shorter document gives it the id it had. */
  lemma DeletionKeepsOtherComponents(inventory: seq<SluggedHeading>, slugOf: string -> string,
                                     c: set<nat>, deleted: set<nat>, h: nat)
    requires Traced(inventory, slugOf) && Closed(inventory, c) && deleted <= c
    requires h < |inventory| && h !in c
    ensures var bases := BasesOf(inventory, slugOf);
      var ids := NaiveIds(Without(bases, deleted, |bases|));
      var at := |Without(bases, deleted, h)|;
      at < |ids| && ids[at] == inventory[h].githubId
  {
    var bases := BasesOf(inventory, slugOf);
    DeletionShifts(inventory, slugOf, c, deleted, |inventory|);
    RemainingIsReallocation(bases, deleted, |inventory|);
    RemainingDomain(bases, deleted, |inventory|);
    assert Placed(NaiveIds(Without(bases, deleted, |bases|)), Remaining(bases, deleted, |bases|), bases, deleted, h);
  }

  function Indices(n: nat): (r: set<nat>)
    ensures forall i: nat :: i in r <==> i < n
  {
    if n == 0 then {} else {n - 1} + Indices(n - 1)
  }

  /** A heading in no component keeps its id, its base slug, whatever else is deleted. */
  lemma UnlinkedSurvivesAnyDeletion(inventory: seq<SluggedHeading>, slugOf: string -> string,
                                    deleted: set<nat>, h: nat)
    requires Traced(inventory, slugOf) && h < |inventory| && h !in deleted
    requires forall i :: i in deleted ==> i < |inventory|
    requires forall g :: !Linked(inventory, h, g) && !Linked(inventory, g, h)
    ensures var bases := BasesOf(inventory, slugOf);
      var ids := NaiveIds(Without(bases, deleted, |bases|));
      var at := |Without(bases, deleted, h)|;
      at < |ids| && ids[at] == inventory[h].githubId == bases[h]
  {
    var others := Indices(|inventory|) - {h};
    assert Closed(inventory, others);
    DeletionKeepsOtherComponents(inventory, slugOf, others, deleted, h);
    UnlinkedKeepsBase(inventory, slugOf, h);
  }
}
