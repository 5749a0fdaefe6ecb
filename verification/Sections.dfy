/** Section spans and ancestors: one-pass stack algorithms against containment. */
module Sections {
  import opened Ordering

  datatype Heading = Heading(line: int, level: nat, text: string)

  /** Inclusive line ranges. */
  datatype Span = Span(start: int, end: int)

  predicate LinesRise(headings: seq<Heading>) {
    forall i, j :: 0 <= i < j < |headings| ==> headings[i].line < headings[j].line
  }

  // ---- spans -------------------------------------------------------------------------

  /** No heading after `k` and before `n` ends the section of `k`. */
  predicate Open(headings: seq<Heading>, k: nat, n: nat)
  {
    forall j :: k < j < n && j < |headings| && k < |headings| ==> headings[j].level > headings[k].level
  }

  /** The span of a section: through the line before the next heading of equal or higher level
      (a smaller or equal number), or to the end. */
  ghost predicate EndsAt(headings: seq<Heading>, total: int, k: nat, end: int)
  {
    (Open(headings, k, |headings|) && end == total)
    || exists j :: k < j < |headings| && ClosedBy(headings, k, j) && end == headings[j].line - 1
  }

  predicate ClosedBy(headings: seq<Heading>, k: nat, j: nat)
  {
    k < j < |headings| && Open(headings, k, j) && headings[j].level <= headings[k].level
  }

  /** Where `stack` and the ends stand before heading `n`: the open headings are on the stack,
      and the others have their ends. */
  ghost predicate Scanned(headings: seq<Heading>, total: int, ends: seq<int>, stack: seq<nat>, n: nat)
  {
    && |ends| == |headings| && n <= |headings| && Increasing(stack)
    && (forall k :: 0 <= k < |stack| ==> stack[k] < n && Open(headings, stack[k], n))
    && (forall k :: 0 <= k < n ==> k in stack || EndsAt(headings, total, k, ends[k]))
    && (forall k :: n <= k < |headings| ==> ends[k] == total)
    && (forall k :: 0 <= k < |stack| ==> ends[stack[k]] == total)
  }

  /** The next heading closes the innermost open one. */
  lemma CloseTop(headings: seq<Heading>, total: int, ends: seq<int>, stack: seq<nat>, n: nat)
    requires Scanned(headings, total, ends, stack, n) && n < |headings| && stack != []
    requires headings[stack[|stack| - 1]].level >= headings[n].level
    ensures Scanned(headings, total, ends[stack[|stack| - 1] := headings[n].line - 1], stack[..|stack| - 1], n)
  {
    var top, rest := stack[|stack| - 1], stack[..|stack| - 1];
    var now := ends[top := headings[n].line - 1];
    assert ClosedBy(headings, top, n);
    forall k | 0 <= k < n ensures k in rest || EndsAt(headings, total, k, now[k]) {
      if k != top && k !in rest {
        assert stack == rest + [top];
        assert EndsAt(headings, total, k, ends[k]);
      }
    }
  }

  /** Once every open heading is of a smaller level, the next one is opened. */
  lemma OpenNext(headings: seq<Heading>, total: int, ends: seq<int>, stack: seq<nat>, n: nat)
    requires Scanned(headings, total, ends, stack, n) && n < |headings|
    requires forall k :: 0 <= k < |stack| ==> headings[stack[k]].level < headings[n].level
    ensures Scanned(headings, total, ends, stack + [n], n + 1)
  {
    var now := stack + [n];
    assert now[|stack|] == n;
    forall k | 0 <= k < n + 1 ensures k in now || EndsAt(headings, total, k, ends[k]) {
      if k < n && k in stack { assert k in now; }
    }
  }

  /** On the stack, levels rise. */
  lemma LevelsRise(headings: seq<Heading>, total: int, ends: seq<int>, stack: seq<nat>, n: nat, a: nat)
    requires Scanned(headings, total, ends, stack, n) && a < |stack|
    ensures headings[stack[a]].level <= headings[stack[|stack| - 1]].level
  {
  }

  method SectionSpans(headings: seq<Heading>, total: int) returns (spans: seq<Span>)
    ensures |spans| == |headings|
    ensures forall k :: 0 <= k < |headings| ==>
      spans[k].start == headings[k].line && EndsAt(headings, total, k, spans[k].end)
  {
    var ends := seq(|headings|, _ => total);
    var stack: seq<nat> := [];
    for n := 0 to |headings|
      invariant Scanned(headings, total, ends, stack, n)
    {
      while stack != [] && headings[stack[|stack| - 1]].level >= headings[n].level
        invariant Scanned(headings, total, ends, stack, n)
      {
        CloseTop(headings, total, ends, stack, n);
        ends := ends[stack[|stack| - 1] := headings[n].line - 1];
        stack := stack[..|stack| - 1];
      }
      forall k | 0 <= k < |stack| ensures headings[stack[k]].level < headings[n].level {
        LevelsRise(headings, total, ends, stack, n, k);
      }
      OpenNext(headings, total, ends, stack, n);
      stack := stack + [n];
    }
    forall k | 0 <= k < |headings| ensures EndsAt(headings, total, k, ends[k]) {
      if k in stack {
        var i :| 0 <= i < |stack| && stack[i] == k;
      }
    }
    spans := seq(|headings|, k requires 0 <= k < |headings| == |ends| => Span(headings[k].line, ends[k]));
  }

  /** The spans of `headings` in a document of `total` lines. */
  ghost predicate SpansOf(headings: seq<Heading>, total: int, spans: seq<Span>)
  {
    && LinesRise(headings) && |spans| == |headings|
    && (forall k :: 0 <= k < |headings| ==> headings[k].line <= total)
    && (forall k :: 0 <= k < |headings| ==>
          spans[k].start == headings[k].line && EndsAt(headings, total, k, spans[k].end))
  }

  lemma StartsBeforeEnd(headings: seq<Heading>, total: int, spans: seq<Span>, i: nat)
    requires SpansOf(headings, total, spans) && i < |headings|
    ensures spans[i].start <= spans[i].end
  {
    assert EndsAt(headings, total, i, spans[i].end);
  }

  /** The heading that closes a section, or the number of headings. */
  lemma Closer(headings: seq<Heading>, total: int, k: nat, end: int) returns (j: nat)
    requires EndsAt(headings, total, k, end) && k < |headings|
    ensures k < j <= |headings| && Open(headings, k, j)
    ensures j < |headings| ==> headings[j].level <= headings[k].level && end == headings[j].line - 1
    ensures j == |headings| ==> end == total
  {
    if Open(headings, k, |headings|) && end == total {
      j := |headings|;
    } else {
      j :| k < j < |headings| && ClosedBy(headings, k, j) && end == headings[j].line - 1;
    }
  }

  lemma ClosesNoLater(headings: seq<Heading>, k: nat, i: nat, outer: nat, inner: nat)
    requires k < i < outer <= |headings| && i < inner <= |headings| && Open(headings, k, i + 1)
    requires Open(headings, i, inner)
    requires outer < |headings| ==> headings[outer].level <= headings[k].level
    ensures inner <= outer
  {
  }

  /** While a section is open at `i`, whatever closes it closes the i-th section too. */
  lemma OpenReaches(headings: seq<Heading>, total: int, spans: seq<Span>, k: nat, i: nat)
    requires SpansOf(headings, total, spans) && k < i < |headings| && Open(headings, k, i + 1)
    ensures spans[k].end >= spans[i].end
  {
    var outer := Closer(headings, total, k, spans[k].end);
    var inner := Closer(headings, total, i, spans[i].end);
    ClosesNoLater(headings, k, i, outer, inner);
  }

  /** A section closed by the i-th heading or before ends before it. */
  lemma ClosedEndsBefore(headings: seq<Heading>, total: int, spans: seq<Span>, k: nat, i: nat)
    requires SpansOf(headings, total, spans) && k < i < |headings| && !Open(headings, k, i + 1)
    ensures spans[k].end < spans[i].start
  {
    var j := Closer(headings, total, k, spans[k].end);
    assert j <= i;
  }

  /** A section reaches a later one's end exactly if nothing up to it closes the section. */
  lemma ReachesExactlyWhenOpen(headings: seq<Heading>, total: int, spans: seq<Span>, k: nat, i: nat)
    requires SpansOf(headings, total, spans) && k < i < |headings|
    ensures spans[i].start <= spans[i].end
    ensures Open(headings, k, i + 1) ==> spans[k].end >= spans[i].end
    ensures !Open(headings, k, i + 1) ==> spans[k].end < spans[i].start
  {
    StartsBeforeEnd(headings, total, spans, i);
    if Open(headings, k, i + 1) {
      OpenReaches(headings, total, spans, k, i);
    } else {
      ClosedEndsBefore(headings, total, spans, k, i);
    }
  }

  /** Starts rise, and any two spans are nested or disjoint. */
  ghost predicate Laminar(spans: seq<Span>)
  {
    forall k, i :: 0 <= k < i < |spans| ==>
      && spans[k].start < spans[i].start <= spans[i].end
      && (spans[k].end < spans[i].start || spans[k].end >= spans[i].end)
  }

  /** Section spans are nested or disjoint. */
  lemma SpansAreLaminar(headings: seq<Heading>, total: int, spans: seq<Span>)
    requires SpansOf(headings, total, spans)
    ensures Laminar(spans)
  {
    forall k, i | 0 <= k < i < |spans|
      ensures spans[k].start < spans[i].start <= spans[i].end
      ensures spans[k].end < spans[i].start || spans[k].end >= spans[i].end
    {
      ReachesExactlyWhenOpen(headings, total, spans, k, i);
    }
  }

  // ---- ancestors by containment --------------------------------------------------------

  predicate Encloses(outer: Span, inner: Span) {
    outer.start < inner.start && inner.end <= outer.end
  }

  /** Every position after `k` and before `n` is kept under `k`. */
  ghost predicate Lasting(keeps: (nat, nat) -> bool, k: nat, n: nat)
  {
    forall j: nat :: k < j < n ==> keeps(k, j)
  }

  /** The stack of a one-pass scan: the positions that everything since was kept under. */
  ghost predicate StackAt(keeps: (nat, nat) -> bool, stack: seq<nat>, n: nat)
  {
    Increasing(stack) && forall k: nat :: k in stack <==> k < n && Lasting(keeps, k, n)
  }

  ghost predicate KeptAt(keeps: (nat, nat) -> bool, chain: seq<nat>, n: nat)
  {
    Increasing(chain) && forall k: nat :: k in chain <==> k < n && Lasting(keeps, k, n + 1)
  }

  /** Popping until the top keeps the next position leaves exactly the positions that keep it,
      as long as keeping is transitive. */
  lemma Popped(keeps: (nat, nat) -> bool, before: seq<nat>, rest: seq<nat>, n: nat)
    requires forall a: nat, b: nat, c: nat :: keeps(a, b) && keeps(b, c) ==> keeps(a, c)
    requires StackAt(keeps, before, n) && rest <= before
    requires rest != [] ==> keeps(rest[|rest| - 1], n)
    requires forall p :: |rest| <= p < |before| ==> !keeps(before[p], n)
    ensures KeptAt(keeps, rest, n) && StackAt(keeps, rest + [n], n + 1)
  {
    forall k | k in rest ensures k < n && Lasting(keeps, k, n + 1) {
      var p :| 0 <= p < |rest| && rest[p] == k;
      assert before[p] == k && k in before;
      var top := rest[|rest| - 1];
      assert top == before[|rest| - 1] && top in before;
      if p < |rest| - 1 { assert keeps(k, top) && keeps(top, n); }
    }
    forall k: nat | k < n && Lasting(keeps, k, n + 1) ensures k in rest {
      assert Lasting(keeps, k, n) && keeps(k, n);
      var p :| 0 <= p < |before| && before[p] == k;
      if p < |rest| { assert rest[p] == k; }
    }
    var now := rest + [n];
    forall p | 0 <= p < |rest| ensures now[p] < n {
      assert now[p] == rest[p] && rest[p] in rest;
    }
    forall k: nat ensures k in now <==> k in rest || k == n {
      assert now[|rest|] == n;
    }
  }

  /** The later span reaches no further. */
  ghost function ReachedBy(spans: seq<Span>): (nat, nat) -> bool
  {
    (k: nat, j: nat) => k < |spans| && j < |spans| && spans[j].end <= spans[k].end
  }

  method RecordAncestors(spans: seq<Span>) returns (ancestors: seq<seq<nat>>)
    ensures |ancestors| == |spans|
    ensures forall i :: 0 <= i < |spans| ==> KeptAt(ReachedBy(spans), ancestors[i], i)
  {
    var stack: seq<nat> := [];
    ancestors := [];
    for i := 0 to |spans|
      invariant |ancestors| == i && forall k :: 0 <= k < i ==> KeptAt(ReachedBy(spans), ancestors[k], k)
      invariant StackAt(ReachedBy(spans), stack, i)
    {
      ghost var before := stack;
      forall p | 0 <= p < |before| ensures before[p] < i { assert before[p] in before; }
      while stack != [] && spans[stack[|stack| - 1]].end < spans[i].end
        invariant stack <= before
        invariant forall p :: |stack| <= p < |before| ==> spans[before[p]].end < spans[i].end
      {
        stack := stack[..|stack| - 1];
      }
      Popped(ReachedBy(spans), before, stack, i);
      ancestors := ancestors + [stack];
      stack := stack + [i];
    }
  }

  /** Where spans are nested or disjoint, the one-stack pass gives exactly the enclosing
      sections. */
  lemma RecordedEncloses(spans: seq<Span>, chain: seq<nat>, i: nat, k: nat)
    requires Laminar(spans) && i < |spans| && k < |spans| && KeptAt(ReachedBy(spans), chain, i)
    ensures k in chain <==> Encloses(spans[k], spans[i])
  {
    if k < i && Encloses(spans[k], spans[i]) {
      forall j: nat | k < j < i + 1 ensures ReachedBy(spans)(k, j) {
        assert spans[j].start <= spans[i].start;
      }
    }
    if k in chain { assert ReachedBy(spans)(k, i); }
  }

  /** Outermost first. */
  lemma OutermostFirst(spans: seq<Span>, chain: seq<nat>, i: nat, a: nat, b: nat)
    requires Laminar(spans) && i < |spans| && KeptAt(ReachedBy(spans), chain, i) && a < b < |chain|
    ensures chain[a] < |spans| && chain[b] < |spans| && Encloses(spans[chain[a]], spans[chain[b]])
  {
    assert chain[a] in chain && chain[b] in chain;
    assert ReachedBy(spans)(chain[a], chain[b]);
  }

  // ---- ancestors by level ---------------------------------------------------------------

  type Outline = map<nat, Heading>

  /** `m` is above `l` in the outline: no heading after it up to `l` is at its level or above. */
  ghost predicate Above(outline: Outline, m: nat, l: nat)
  {
    && m < l && m in outline
    && forall x :: x in outline && m < x <= l ==> outline[x].level > outline[m].level
  }

  /** Both inventories' headings by line; the full one wins a line both see. */
  ghost predicate OutlineOf(outline: Outline, full: seq<Heading>, toc: seq<Heading>)
  {
    && (forall h :: h in full + toc ==> h.line >= 0 && h.line in outline)
    && (forall l :: l in outline ==>
          && outline[l].line == l && outline[l] in full + toc
          && ((exists h :: h in full && h.line == l) ==> outline[l] in full))
  }

  method MergeOutline(full: seq<Heading>, toc: seq<Heading>) returns (outline: Outline)
    requires forall h :: h in full + toc ==> h.line >= 0
    ensures OutlineOf(outline, full, toc)
  {
    outline := map[];
    for i := 0 to |full|
      invariant OutlineOf(outline, full[..i], [])
    {
      assert full[i] in full + toc && full[..i + 1] == full[..i] + [full[i]];
      outline := outline[full[i].line := full[i]];
    }
    assert full[..|full|] == full;
    for i := 0 to |toc|
      invariant OutlineOf(outline, full, toc[..i])
    {
      assert toc[i] == (full + toc)[|full| + i] && toc[..i + 1] == toc[..i] + [toc[i]];
      if toc[i].line !in outline {
        outline := outline[toc[i].line := toc[i]];
      }
    }
    assert toc[..|toc|] == toc;
  }

  /** `lines` lists the lines above `l`, in order, and `chain` their headings. */
  ghost predicate ChainAt(outline: Outline, chain: seq<Heading>, lines: seq<nat>, l: nat)
  {
    && Increasing(lines) && |chain| == |lines|
    && (forall m: nat :: m in lines <==> Above(outline, m, l))
    && (forall k :: 0 <= k < |lines| ==> lines[k] in outline && chain[k] == outline[lines[k]])
  }

  /** `chain` lists the headings above `l`, outermost first. */
  ghost predicate Chain(outline: Outline, chain: seq<Heading>, l: nat)
  {
    exists lines :: ChainAt(outline, chain, lines, l)
  }

  /** The later line is at a greater level. */
  ghost function LevelRises(outline: Outline, order: seq<nat>): (nat, nat) -> bool
  {
    (k: nat, j: nat) => k < |order| && j < |order| && order[k] in outline && order[j] in outline
                     && outline[order[k]].level < outline[order[j]].level
  }

  ghost predicate Orders(outline: Outline, order: seq<nat>)
  {
    Increasing(order) && forall l: nat :: l in order <==> l in outline
  }

  lemma KeptIsAbove(outline: Outline, order: seq<nat>, p: nat, n: nat)
    requires Orders(outline, order) && p < n < |order|
    ensures Above(outline, order[p], order[n]) <==> Lasting(LevelRises(outline, order), p, n + 1)
  {
    assert order[p] in order && order[n] in order;
    if Lasting(LevelRises(outline, order), p, n + 1) {
      forall x | x in outline && order[p] < x <= order[n] ensures outline[x].level > outline[order[p]].level {
        var q :| 0 <= q < |order| && order[q] == x;
        assert p < q < n + 1;
        assert LevelRises(outline, order)(p, q);
      }
    }
    if Above(outline, order[p], order[n]) {
      forall q: nat | p < q < n + 1 ensures LevelRises(outline, order)(p, q) {
        assert order[q] in order && order[q] <= order[n];
      }
    }
  }

  /** The positions kept for a line are its chain. */
  lemma KeptIsChain(outline: Outline, order: seq<nat>, kept: seq<nat>, chain: seq<Heading>, n: nat)
    requires Orders(outline, order) && n < |order| && KeptAt(LevelRises(outline, order), kept, n)
    requires |chain| == |kept|
    requires forall k :: 0 <= k < |kept| ==>
      kept[k] < |order| && order[kept[k]] in outline && chain[k] == outline[order[kept[k]]]
    ensures Chain(outline, chain, order[n])
  {
    var lines := seq(|kept|, k requires 0 <= k < |kept| && kept[k] < |order| => order[kept[k]]);
    forall m: nat ensures m in lines <==> Above(outline, m, order[n]) {
      if m in lines {
        var k :| 0 <= k < |lines| && lines[k] == m;
        assert kept[k] in kept;
        KeptIsAbove(outline, order, kept[k], n);
      }
      if Above(outline, m, order[n]) {
        var p :| 0 <= p < |order| && order[p] == m;
        assert p < n;
        KeptIsAbove(outline, order, p, n);
        assert p in kept;
        var k :| 0 <= k < |kept| && kept[k] == p;
        assert lines[k] == m;
      }
    }
    assert ChainAt(outline, chain, lines, order[n]);
  }

  /** Close every heading that the n-th line's is not below. */
  method PopLevels(lines: Outline, order: seq<nat>, before: seq<nat>, n: nat) returns (stack: seq<nat>)
    requires Orders(lines, order) && n < |order| && StackAt(LevelRises(lines, order), before, n)
    ensures KeptAt(LevelRises(lines, order), stack, n)
    ensures StackAt(LevelRises(lines, order), stack + [n], n + 1)
  {
    stack := before;
    assert order[n] in order;
    forall p | 0 <= p < |before| ensures before[p] < n && order[before[p]] in lines {
      assert before[p] in before && order[before[p]] in order;
    }
    while stack != [] && lines[order[stack[|stack| - 1]]].level >= lines[order[n]].level
      invariant stack <= before
      invariant forall p :: |stack| <= p < |before| ==> lines[order[before[p]]].level >= lines[order[n]].level
    {
      stack := stack[..|stack| - 1];
    }
    Popped(LevelRises(lines, order), before, stack, n);
  }

  /** The headings on the stack. */
  method NameStack(lines: Outline, order: seq<nat>, stack: seq<nat>, n: nat) returns (chain: seq<Heading>)
    requires Orders(lines, order) && n < |order| && KeptAt(LevelRises(lines, order), stack, n)
    ensures Chain(lines, chain, order[n])
  {
    forall k | 0 <= k < |stack| ensures stack[k] < |order| && order[stack[k]] in lines {
      assert stack[k] in stack;
      assert order[stack[k]] in order;
    }
    chain := seq(|stack|, k requires 0 <= k < |stack| && stack[k] < |order| && order[stack[k]] in lines =>
      lines[order[stack[k]]]);
    KeptIsChain(lines, order, stack, chain, n);
  }

  /** One chain to each addressable heading: the headings above it in the merged outline. */
  method AncestorChains(full: seq<Heading>, toc: seq<Heading>)
    returns (chains: seq<seq<Heading>>, ghost outline: Outline)
    requires forall h :: h in full + toc ==> h.line >= 0
    ensures OutlineOf(outline, full, toc) && |chains| == |toc|
    ensures forall t :: 0 <= t < |toc| ==> toc[t].line >= 0 && Chain(outline, chains[t], toc[t].line)
  {
    var lines := MergeOutline(full, toc);
    outline := lines;
    var order := Sorted(lines.Keys);
    var addressable := set h | h in toc :: h.line;
    var byLine: map<nat, seq<Heading>> := map[];
    var stack: seq<nat> := [];
    for n := 0 to |order|
      invariant StackAt(LevelRises(outline, order), stack, n)
      invariant forall l :: l in byLine ==> Chain(outline, byLine[l], l)
      invariant forall p :: 0 <= p < n && order[p] in addressable ==> order[p] in byLine
    {
      assert order[n] in order;
      stack := PopLevels(lines, order, stack, n);
      if order[n] in addressable {
        var chain := NameStack(lines, order, stack, n);
        byLine := byLine[order[n] := chain];
      }
      stack := stack + [n];
    }
    forall t | 0 <= t < |toc| ensures toc[t].line >= 0 && toc[t].line in byLine {
      assert toc[t] == (full + toc)[|full| + t] && toc[t].line in lines.Keys;
      assert toc[t].line in addressable;
    }
    chains := seq(|toc|, t requires 0 <= t < |toc| && toc[t].line >= 0 && toc[t].line in byLine => byLine[toc[t].line]);
  }

  /** Where every heading is addressable, the chain by level names exactly the sections whose
      spans enclose the heading's. */
  lemma ChainsAgree(headings: seq<Heading>, total: int, spans: seq<Span>, outline: Outline, k: nat, i: nat)
    requires SpansOf(headings, total, spans) && k < |headings| && i < |headings|
    requires OutlineOf(outline, headings, headings)
    requires headings[k].line >= 0 && headings[i].line >= 0
    ensures Above(outline, headings[k].line, headings[i].line) <==> Encloses(spans[k], spans[i])
  {
    if k < i {
      OpenEncloses(headings, total, spans, k, i);
      OpenIsAbove(headings, outline, k, i);
    } else {
      assert headings[i].line <= headings[k].line;
    }
  }

  lemma OpenEncloses(headings: seq<Heading>, total: int, spans: seq<Span>, k: nat, i: nat)
    requires SpansOf(headings, total, spans) && k < i < |headings|
    ensures Open(headings, k, i + 1) <==> Encloses(spans[k], spans[i])
  {
    ReachesExactlyWhenOpen(headings, total, spans, k, i);
  }

  lemma OpenIsAbove(headings: seq<Heading>, outline: Outline, k: nat, i: nat)
    requires LinesRise(headings) && OutlineOf(outline, headings, headings)
    requires k < i < |headings| && headings[k].line >= 0 && headings[i].line >= 0
    ensures Above(outline, headings[k].line, headings[i].line) <==> Open(headings, k, i + 1)
  {
    OutlineAt(headings, outline, k);
    if Open(headings, k, i + 1) {
      forall x | x in outline && headings[k].line < x <= headings[i].line
        ensures outline[x].level > headings[k].level
      {
        var j := OutlineHas(headings, outline, x);
        assert k < j < i + 1;
      }
    }
    if Above(outline, headings[k].line, headings[i].line) {
      forall j | k < j < i + 1 ensures headings[j].level > headings[k].level {
        OutlineAt(headings, outline, j);
      }
    }
  }

  lemma OutlineHas(headings: seq<Heading>, outline: Outline, x: nat) returns (j: nat)
    requires OutlineOf(outline, headings, headings) && x in outline
    ensures j < |headings| && headings[j] == outline[x] && headings[j].line == x
  {
    var both := headings + headings;
    var p :| 0 <= p < |both| && both[p] == outline[x];
    j := if p < |headings| then p else p - |headings|;
  }

  lemma OutlineAt(headings: seq<Heading>, outline: Outline, k: nat)
    requires LinesRise(headings) && k < |headings| && OutlineOf(outline, headings, headings)
    ensures headings[k].line >= 0 && headings[k].line in outline && outline[headings[k].line] == headings[k]
  {
    var h := headings[k];
    assert h == (headings + headings)[k] && h in headings + headings;
    var j :| 0 <= j < |headings| && headings[j] == outline[h.line];
  }
}
