/** The memoised directory walk that expands selectors, against the lexical matcher. */
module PathSelection {
  import opened Selectors
  import opened Wrappers

  /** A project-relative spelling, between separators; the empty one is the root. */
  type Spelling = seq<string>

  /** `isDir`: a directory in its own right, never through a symbolic link. */
  datatype DirEntry = DirEntry(name: string, isDir: bool)

  /** The directories that can be listed, by spelling. Listing any other one fails. */
  type Tree = map<Spelling, seq<DirEntry>>

  /** Match the segment at `index` against the directory at `prefix`; `entries` is its retained
      listing when a frame for the same directory already has it. */
  datatype Frame = Frame(prefix: Spelling, index: nat, entries: Option<seq<DirEntry>>)

  type State = (Spelling, nat)

  /** What a walk is given: the tree, the matcher, the selector and the exclusions. */
  datatype Walk = Walk(tree: Tree, matches: Matcher, segments: Segments, exclusions: seq<Segments>)
  {
    predicate Valid() {
      segments != [] && forall x :: x in exclusions ==> x != []
    }

    predicate Excluded(spelling: Spelling) {
      exists k :: 0 <= k < |exclusions| && Matches(matches, exclusions[k], spelling)
    }

    predicate Pruned(spelling: Spelling) {
      exists k :: 0 <= k < |exclusions| && Prunes(matches, exclusions[k], spelling)
    }

    predicate IsDirectory(d: Spelling) {
      d == []
      || (IsDirectory(d[..|d| - 1]) && d[..|d| - 1] in tree
          && DirEntry(d[|d| - 1], true) in tree[d[..|d| - 1]])
    }

    predicate IsLeaf(p: Spelling) {
      && p != [] && IsDirectory(p[..|p| - 1]) && p[..|p| - 1] in tree
      && DirEntry(p[|p| - 1], false) in tree[p[..|p| - 1]]
    }

    /** The leaf spellings the selector matches and no exclusion prunes. */
    predicate Selects(p: Spelling) {
      IsLeaf(p) && Matches(matches, segments, p) && !Pruned(p)
    }

    function Retained(prefix: Spelling, entries: seq<DirEntry>): (r: seq<DirEntry>)
      ensures forall e :: e in r <==> e in entries && !Excluded(prefix + [e.name])
    {
      if entries == [] then []
      else
        var rest := Retained(prefix, entries[1..]);
        if Excluded(prefix + [entries[0].name]) then rest else [entries[0]] + rest
    }

    predicate Last(index: nat) { index == |segments| - 1 }

    /** Every child directory, at the same segment. */
    ghost function Below(prefix: Spelling, index: nat, retained: seq<DirEntry>): set<State> {
      set e | e in retained && e.isDir :: (prefix + [e.name], index)
    }

    /** The states one state leads to, without scanning anything twice. */
    ghost function Next(prefix: Spelling, index: nat, retained: seq<DirEntry>): set<State>
      requires index < |segments|
    {
      if segments[index] == RECURSIVE_SEGMENT then
        Below(prefix, index, retained) + (if Last(index) then {} else {(prefix, index + 1)})
      else if Last(index) then {}
      else set e | e in retained && e.isDir && matches(e.name, segments[index]) :: (prefix + [e.name], index + 1)
    }

    /** The spellings one state finds by itself. */
    ghost function Hits(prefix: Spelling, index: nat, retained: seq<DirEntry>): set<Spelling>
      requires index < |segments|
    {
      if !Last(index) then {}
      else set e | e in retained && !e.isDir && TakesName(e.name, index) :: prefix + [e.name]
    }

    predicate TakesName(name: string, index: nat)
      requires index < |segments|
    {
      segments[index] == RECURSIVE_SEGMENT || matches(name, segments[index])
    }

    /** Whatever the rest of the selector matches below `prefix`, the whole selector matches. */
    ghost predicate Carries(prefix: Spelling, index: nat) {
      && index < |segments|
      && forall rest {:trigger Matches(matches, segments[index..], rest)} ::
           Matches(matches, segments[index..], rest) ==> Matches(matches, segments, prefix + rest)
    }

    /** The segments before the i-th can take exactly the names of `d`. */
    predicate Leads(d: Spelling, i: nat)
      requires i <= |segments|
      decreases |d|, i
    {
      || (d == [] && i == 0)
      || (i > 0 && segments[i - 1] == RECURSIVE_SEGMENT && Leads(d, i - 1))
      || (d != [] && i < |segments| && segments[i] == RECURSIVE_SEGMENT && Leads(d[..|d| - 1], i))
      || (d != [] && i > 0 && segments[i - 1] != RECURSIVE_SEGMENT
          && matches(d[|d| - 1], segments[i - 1]) && Leads(d[..|d| - 1], i - 1))
    }

    /** A directory no exclusion prunes, which the selector leads to with something left to match. */
    ghost predicate MustEnter(d: Spelling) {
      IsDirectory(d) && !Pruned(d) && exists i :: 0 <= i < |segments| && Leads(d, i)
    }

    ghost predicate Sound(s: State) {
      IsDirectory(s.0) && !Pruned(s.0) && Carries(s.0, s.1) && Leads(s.0, s.1)
    }

    /** A visited state's successors are known and its own finds are found. */
    ghost predicate Expanded(known: set<State>, found: set<Spelling>, s: State) {
      && s.1 < |segments| && s.0 in tree
      && Next(s.0, s.1, Retained(s.0, tree[s.0])) <= known
      && Hits(s.0, s.1, Retained(s.0, tree[s.0])) <= found
    }

    predicate Carried(f: Frame) {
      f.entries.Some? ==> f.prefix in tree && f.entries.value == Retained(f.prefix, tree[f.prefix])
    }

    ghost predicate Walking(visited: set<State>, pending: seq<Frame>, found: set<Spelling>) {
      && (forall s {:trigger Expanded(visited + Keys(pending), found, s)} :: s in visited ==>
            Expanded(visited + Keys(pending), found, s))
      && (forall s {:trigger Sound(s)} :: s in visited + Keys(pending) ==> Sound(s))
      && (forall k :: 0 <= k < |pending| ==> Carried(pending[k]))
      && (forall p {:trigger Selects(p)} :: p in found ==> Selects(p))
      && ([], 0) in visited + Keys(pending)
    }

    ghost function States(): set<State> {
      set p, i | p in tree && i in Positions(|segments|) :: (p, i)
    }
  }

  ghost function Keys(pending: seq<Frame>): set<State> {
    set k | 0 <= k < |pending| :: (pending[k].prefix, pending[k].index)
  }

  lemma OneKey(f: Frame)
    ensures Keys([f]) == {(f.prefix, f.index)}
  {
    assert [f][0] == f;
  }

  lemma KeysAppend(a: seq<Frame>, b: seq<Frame>)
    ensures Keys(a + b) == Keys(a) + Keys(b)
  {
    forall k | 0 <= k < |a| ensures (a[k].prefix, a[k].index) in Keys(a + b) {
      assert (a + b)[k] == a[k];
    }
    forall k | 0 <= k < |b| ensures (b[k].prefix, b[k].index) in Keys(a + b) {
      assert (a + b)[|a| + k] == b[k];
    }
  }

  // ---- one step keeps everything that was found correct --------------------------------

  lemma PrunedBelow(w: Walk, d: Spelling, name: string)
    ensures w.Pruned(d + [name]) <==> w.Pruned(d) || w.Excluded(d + [name])
  {
    var p := d + [name];
    if w.Pruned(d) {
      var k :| 0 <= k < |w.exclusions| && Prunes(w.matches, w.exclusions[k], d);
      var n :| 0 < n <= |d| && Matches(w.matches, w.exclusions[k], d[..n]);
      assert p[..n] == d[..n];
    }
    if w.Excluded(p) {
      assert p[..|p|] == p;
    }
    if w.Pruned(p) && !w.Excluded(p) {
      var k :| 0 <= k < |w.exclusions| && Prunes(w.matches, w.exclusions[k], p);
      var n :| 0 < n <= |p| && Matches(w.matches, w.exclusions[k], p[..n]);
      assert p[..|p|] == p;
      assert n < |p| ==> p[..n] == d[..n];
    }
  }

  lemma EntryBelow(w: Walk, d: Spelling, e: DirEntry)
    requires w.IsDirectory(d) && !w.Pruned(d) && d in w.tree && e in w.Retained(d, w.tree[d])
    ensures !w.Pruned(d + [e.name])
    ensures e.isDir ==> w.IsDirectory(d + [e.name])
    ensures !e.isDir ==> w.IsLeaf(d + [e.name])
  {
    PrunedBelow(w, d, e.name);
    var p := d + [e.name];
    assert p[..|p| - 1] == d;
    assert e == DirEntry(e.name, e.isDir);
  }

  /** Everything a sound state leads to is sound. */
  lemma NextSound(w: Walk, s: State, t: State)
    requires w.Sound(s) && s.0 in w.tree && t in w.Next(s.0, s.1, w.Retained(s.0, w.tree[s.0]))
    ensures w.Sound(t)
  {
    var (d, i) := s;
    if t.0 != d {
      var e :| e in w.Retained(d, w.tree[d]) && e.isDir && t.0 == d + [e.name];
      EntryBelow(w, d, e);
    }
    if t.0 == d {
      CarryPast(w, d, i);
    } else {
      CarryDown(w, d, i, t.1, t.0[|d|]);
      assert t.0 == d + [t.0[|d|]] && t.0[..|t.0| - 1] == d;
    }
  }

  lemma CarryPast(w: Walk, d: Spelling, i: nat)
    requires w.Carries(d, i) && i + 1 < |w.segments| && w.segments[i] == RECURSIVE_SEGMENT
    ensures w.Carries(d, i + 1)
  {
    forall rest | Matches(w.matches, w.segments[i + 1..], rest) ensures Matches(w.matches, w.segments, d + rest) {
      PassRecursive(w.matches, w.segments, i, rest);
    }
  }

  lemma CarryDown(w: Walk, d: Spelling, i: nat, j: nat, name: string)
    requires w.Carries(d, i) && j < |w.segments|
    requires if w.segments[i] == RECURSIVE_SEGMENT then j == i else j == i + 1 && w.matches(name, w.segments[i])
    ensures w.Carries(d + [name], j)
  {
    forall rest | Matches(w.matches, w.segments[j..], rest)
      ensures Matches(w.matches, w.segments, d + [name] + rest)
    {
      TakeName(w.matches, w.segments, i, j, name, rest);
      assert d + [name] + rest == d + ([name] + rest);
    }
  }

  /** A recursive segment may take nothing. */
  lemma PassRecursive(matches: Matcher, segments: Segments, i: nat, rest: Parts)
    requires i + 1 < |segments| && segments[i] == RECURSIVE_SEGMENT && Matches(matches, segments[i + 1..], rest)
    ensures Matches(matches, segments[i..], rest)
  {
    assert segments[i..][1..] == segments[i + 1..];
  }

  /** A segment takes one name and is done, or is recursive and takes more. */
  lemma TakeName(matches: Matcher, segments: Segments, i: nat, j: nat, name: string, rest: Parts)
    requires i < |segments| && j < |segments| && Matches(matches, segments[j..], rest)
    requires if segments[i] == RECURSIVE_SEGMENT then j == i else j == i + 1 && matches(name, segments[i])
    ensures Matches(matches, segments[i..], [name] + rest)
  {
    assert ([name] + rest)[1..] == rest;
    assert segments[i..][1..] == segments[i + 1..];
  }

  lemma HitsSelected(w: Walk, s: State, p: Spelling)
    requires w.Sound(s) && s.0 in w.tree && p in w.Hits(s.0, s.1, w.Retained(s.0, w.tree[s.0]))
    ensures w.Selects(p)
  {
    var (d, i) := s;
    var e :| e in w.Retained(d, w.tree[d]) && !e.isDir && w.TakesName(e.name, i) && p == d + [e.name];
    EntryBelow(w, d, e);
    assert w.segments[i..] == [w.segments[i]];
    assert Matches(w.matches, w.segments[i..], [e.name]);
  }

  /** A state already visited adds nothing. */
  lemma Skip(w: Walk, visited: set<State>, pending: seq<Frame>, found: set<Spelling>)
    requires pending != [] && w.Walking(visited, pending, found)
    requires var f := pending[|pending| - 1]; (f.prefix, f.index) in visited
    ensures w.Walking(visited, pending[..|pending| - 1], found)
  {
    var f, rest := pending[|pending| - 1], pending[..|pending| - 1];
    assert pending == rest + [f];
    KeysAppend(rest, [f]);
    OneKey(f);
    assert visited + Keys(pending) == visited + Keys(rest);
  }

  /** Expanding a new state keeps every state sound, every visited state expanded and every
      spelling found selected. */
  lemma Expand(w: Walk, visited: set<State>, rest: seq<Frame>, f: Frame, found: set<Spelling>,
               frames: seq<Frame>, more: set<Spelling>)
    requires w.Walking(visited, rest + [f], found) && f.prefix in w.tree && f.index < |w.segments|
    requires Keys(frames) == w.Next(f.prefix, f.index, w.Retained(f.prefix, w.tree[f.prefix]))
    requires forall k :: 0 <= k < |frames| ==> w.Carried(frames[k])
    requires more == found + w.Hits(f.prefix, f.index, w.Retained(f.prefix, w.tree[f.prefix]))
    ensures w.Walking(visited + {(f.prefix, f.index)}, rest + frames, more)
  {
    var s, now := (f.prefix, f.index), visited + {(f.prefix, f.index)};
    KeysAppend(rest, [f]);
    KeysAppend(rest, frames);
    OneKey(f);
    var before, known := visited + Keys(rest + [f]), now + Keys(rest + frames);
    assert before <= known;
    forall t | t in now ensures w.Expanded(known, more, t) {
      if t in visited { assert w.Expanded(before, found, t); }
    }
    assert w.Sound(s);
    forall t | t in known ensures w.Sound(t) {
      if t !in before { NextSound(w, s, t); }
    }
    forall p | p in more ensures w.Selects(p) {
      if p !in found { HitsSelected(w, s, p); }
    }
    forall k | 0 <= k < |rest + frames| ensures w.Carried((rest + frames)[k]) {
      if k < |rest| { assert (rest + frames)[k] == (rest + [f])[k]; }
    }
  }

  // ---- memoisation loses no match ------------------------------------------------------

  lemma {:induction false} DirectoryAbove(w: Walk, p: Spelling, n: nat)
    requires n < |p| && (w.IsLeaf(p) || w.IsDirectory(p))
    ensures w.IsDirectory(p[..n]) && p[..n] in w.tree
    ensures n < |p| - 1 ==> DirEntry(p[n], true) in w.tree[p[..n]]
    ensures n == |p| - 1 && w.IsLeaf(p) ==> DirEntry(p[n], false) in w.tree[p[..n]]
    decreases |p| - n
  {
    if n < |p| - 1 {
      DirectoryAbove(w, p, n + 1);
      assert p[..n + 1][..n] == p[..n] && p[..n + 1][n] == p[n];
    }
  }

  lemma NotPrunedAbove(w: Walk, p: Spelling, n: nat)
    requires n < |p| && !w.Pruned(p)
    ensures !w.Excluded(p[..n + 1])
  {
    forall k | 0 <= k < |w.exclusions| ensures !Matches(w.matches, w.exclusions[k], p[..n + 1]) {
      assert !Prunes(w.matches, w.exclusions[k], p);
    }
  }

  /** From a visited state, every spelling its part of the selector matches has been found. */
  lemma {:induction false} FoundBelow(w: Walk, visited: set<State>, found: set<Spelling>, i: nat,
                                      p: Spelling, n: nat)
    requires forall s :: s in visited ==> w.Expanded(visited, found, s)
    requires n < |p| && (p[..n], i) in visited && i < |w.segments|
    requires w.IsLeaf(p) && !w.Pruned(p) && Matches(w.matches, w.segments[i..], p[n..])
    ensures p in found
    decreases |w.segments| - i + |p| - n
  {
    var d, name := p[..n], p[n];
    assert w.Expanded(visited, found, (d, i));
    DirectoryAbove(w, p, n);
    NotPrunedAbove(w, p, n);
    var e := DirEntry(name, n < |p| - 1);
    assert p[..n + 1] == d + [name] && e in w.Retained(d, w.tree[d]);
    assert w.segments[i..][1..] == w.segments[i + 1..] && p[n..][1..] == p[n + 1..];
    assert w.Last(i) ==> w.segments[i + 1..] == [];
    var recursive := w.segments[i] == RECURSIVE_SEGMENT;
    if recursive && !w.Last(i) && Matches(w.matches, w.segments[i + 1..], p[n..]) {
      FoundBelow(w, visited, found, i + 1, p, n);
    } else if n == |p| - 1 {
      LastPart(w, i, p, n);
      assert p == d + [name];
    } else if recursive {
      assert w.Last(i) ==> p[n + 1..] != [];
      assert (d + [e.name], i) in w.Next(d, i, w.Retained(d, w.tree[d]));
      FoundBelow(w, visited, found, i, p, n + 1);
    } else {
      assert (d + [e.name], i + 1) in w.Next(d, i, w.Retained(d, w.tree[d]));
      FoundBelow(w, visited, found, i + 1, p, n + 1);
    }
  }

  lemma LastPart(w: Walk, i: nat, p: Spelling, n: nat)
    requires i < |w.segments| && n == |p| - 1 && Matches(w.matches, w.segments[i..], p[n..])
    requires w.segments[i] == RECURSIVE_SEGMENT && !w.Last(i) ==> !Matches(w.matches, w.segments[i + 1..], p[n..])
    ensures w.Last(i) && w.TakesName(p[n], i)
  {
    assert w.segments[i..][1..] == w.segments[i + 1..] && p[n..] == [p[n]] && p[n..][1..] == [];
    if !w.Last(i) {
      NeedsAName(w.matches, w.segments[i + 1..]);
      NeedsAName(w.matches, w.segments[i..]);
    }
  }

  /** A finished walk has entered every directory it must. */
  lemma {:induction false} Entered(w: Walk, visited: set<State>, found: set<Spelling>, d: Spelling, i: nat)
    requires ([], 0) in visited && forall s :: s in visited ==> w.Expanded(visited, found, s)
    requires w.IsDirectory(d) && !w.Pruned(d) && i < |w.segments| && w.Leads(d, i)
    ensures (d, i) in visited
    decreases |d|, i
  {
    if i > 0 && w.segments[i - 1] == RECURSIVE_SEGMENT && w.Leads(d, i - 1) {
      Entered(w, visited, found, d, i - 1);
      assert w.Expanded(visited, found, (d, i - 1));
    } else if d != [] {
      var above, name := d[..|d| - 1], d[|d| - 1];
      assert d == above + [name];
      PrunedBelow(w, above, name);
      var from := if w.segments[i] == RECURSIVE_SEGMENT && w.Leads(above, i) then i else i - 1;
      Entered(w, visited, found, above, from);
      assert w.Expanded(visited, found, (above, from));
      var e := DirEntry(name, true);
      assert e in w.Retained(above, w.tree[above]);
      assert (above + [e.name], i) in w.Next(above, from, w.Retained(above, w.tree[above]));
    }
  }

  lemma EnteredAll(w: Walk, visited: set<State>, found: set<Spelling>)
    requires w.Valid() && w.Walking(visited, [], found)
    ensures forall d :: w.MustEnter(d) ==> d in w.tree
  {
    assert visited + Keys([]) == visited;
    forall s | s in visited ensures w.Expanded(visited, found, s) {
      assert w.Expanded(visited + Keys([]), found, s);
    }
    forall d | w.MustEnter(d) ensures d in w.tree {
      var i :| 0 <= i < |w.segments| && w.Leads(d, i);
      Entered(w, visited, found, d, i);
      assert w.Expanded(visited, found, (d, i));
    }
  }

  /** A finished walk has found exactly the selected spellings. */
  lemma Finished(w: Walk, visited: set<State>, found: set<Spelling>)
    requires w.Valid() && w.Walking(visited, [], found)
    ensures forall p :: p in found <==> w.Selects(p)
  {
    assert visited + Keys([]) == visited;
    forall s | s in visited ensures w.Expanded(visited, found, s) {
      assert w.Expanded(visited + Keys([]), found, s);
    }
    forall p | w.Selects(p) ensures p in found {
      assert p[..0] == [] && p[0..] == p && w.segments[0..] == w.segments;
      FoundBelow(w, visited, found, 0, p, 0);
    }
  }

  // ---- the walk ------------------------------------------------------------------------

  method IsExcluded(w: Walk, spelling: Spelling) returns (r: bool)
    requires w.Valid() && spelling != []
    ensures r <==> w.Excluded(spelling)
  {
    for k := 0 to |w.exclusions|
      invariant forall j :: 0 <= j < k ==> !Matches(w.matches, w.exclusions[j], spelling)
    {
      assert w.exclusions[k] in w.exclusions;
      r := SelectorMatchesPath(w.matches, w.exclusions[k], spelling);
      if r { return; }
    }
    return false;
  }

  method RetainedEntries(w: Walk, entries: seq<DirEntry>, prefix: Spelling) returns (retained: seq<DirEntry>)
    requires w.Valid()
    ensures retained == w.Retained(prefix, entries)
  {
    if w.exclusions == [] {
      NothingExcluded(w, prefix, entries);
      return entries;
    }
    retained := [];
    for i := 0 to |entries|
      invariant w.Retained(prefix, entries) == retained + w.Retained(prefix, entries[i..])
    {
      assert entries[i..][1..] == entries[i + 1..];
      var excluded := IsExcluded(w, prefix + [entries[i].name]);
      if !excluded {
        retained := retained + [entries[i]];
      }
    }
  }

  lemma {:induction false} NothingExcluded(w: Walk, prefix: Spelling, entries: seq<DirEntry>)
    requires w.exclusions == []
    ensures w.Retained(prefix, entries) == entries
  {
    if entries != [] {
      NothingExcluded(w, prefix, entries[1..]);
    }
  }

  lemma OneMoreEntry(w: Walk, prefix: Spelling, index: nat, entries: seq<DirEntry>, k: nat)
    requires k < |entries| && index < |w.segments|
    ensures var e, spelling := entries[k], prefix + [entries[k].name];
      && w.Below(prefix, index, entries[..k + 1])
         == w.Below(prefix, index, entries[..k]) + (if e.isDir then {(spelling, index)} else {})
      && w.Hits(prefix, index, entries[..k + 1])
         == w.Hits(prefix, index, entries[..k])
            + (if w.Last(index) && !e.isDir && w.TakesName(e.name, index) then {spelling} else {})
  {
    assert entries[..k + 1] == entries[..k] + [entries[k]];
  }

  /** The file matches of one recursive frame, and a step into each child directory. */
  method ChildFrames(w: Walk, f: Frame, entries: seq<DirEntry>, found: set<Spelling>)
    returns (frames: seq<Frame>, more: set<Spelling>)
    requires f.index < |w.segments| && w.segments[f.index] == RECURSIVE_SEGMENT
    ensures Keys(frames) == w.Below(f.prefix, f.index, entries)
    ensures forall k :: 0 <= k < |frames| ==> w.Carried(frames[k])
    ensures more == found + w.Hits(f.prefix, f.index, entries)
  {
    frames, more := [], found;
    for k := 0 to |entries|
      invariant Keys(frames) == w.Below(f.prefix, f.index, entries[..k])
      invariant forall j :: 0 <= j < |frames| ==> w.Carried(frames[j])
      invariant more == found + w.Hits(f.prefix, f.index, entries[..k])
    {
      var entry := entries[k];
      var spelling := f.prefix + [entry.name];
      OneMoreEntry(w, f.prefix, f.index, entries, k);
      if entry.isDir {
        var child := Frame(spelling, f.index, None);
        KeysAppend(frames, [child]);
        OneKey(child);
        frames := frames + [child];
      } else if w.Last(f.index) {
        more := more + {spelling};
      }
    }
    assert entries[..|entries|] == entries;
  }

  /** Expand one recursive frame: its file matches, and the steps it spawns, handoff last. */
  method RecursiveFrames(w: Walk, f: Frame, entries: seq<DirEntry>, found: set<Spelling>)
    returns (frames: seq<Frame>, more: set<Spelling>)
    requires f.index < |w.segments| && w.segments[f.index] == RECURSIVE_SEGMENT
    requires f.prefix in w.tree && entries == w.Retained(f.prefix, w.tree[f.prefix])
    ensures Keys(frames) == w.Next(f.prefix, f.index, entries)
    ensures forall k :: 0 <= k < |frames| ==> w.Carried(frames[k])
    ensures more == found + w.Hits(f.prefix, f.index, entries)
  {
    frames, more := ChildFrames(w, f, entries, found);
    if !w.Last(f.index) {
      var handoff := Frame(f.prefix, f.index + 1, Some(entries));
      KeysAppend(frames, [handoff]);
      OneKey(handoff);
      frames := frames + [handoff];
    }
  }

  /** Expand one frame on a plain segment. */
  method NamedFrames(w: Walk, f: Frame, entries: seq<DirEntry>, found: set<Spelling>)
    returns (frames: seq<Frame>, more: set<Spelling>)
    requires f.index < |w.segments| && w.segments[f.index] != RECURSIVE_SEGMENT
    ensures Keys(frames) == w.Next(f.prefix, f.index, entries)
    ensures forall k :: 0 <= k < |frames| ==> w.Carried(frames[k])
    ensures more == found + w.Hits(f.prefix, f.index, entries)
  {
    frames, more := [], found;
    for k := 0 to |entries|
      invariant Keys(frames) == w.Next(f.prefix, f.index, entries[..k])
      invariant forall j :: 0 <= j < |frames| ==> w.Carried(frames[j])
      invariant more == found + w.Hits(f.prefix, f.index, entries[..k])
    {
      var entry := entries[k];
      assert entries[..k + 1] == entries[..k] + [entry];
      if w.matches(entry.name, w.segments[f.index]) {
        var spelling := f.prefix + [entry.name];
        if w.Last(f.index) {
          if !entry.isDir {
            more := more + {spelling};
          }
        } else if entry.isDir {
          var child := Frame(spelling, f.index + 1, None);
          KeysAppend(frames, [child]);
          OneKey(child);
          frames := frames + [child];
        }
      }
    }
    assert entries[..|entries|] == entries;
  }

  predicate NoRepeats(scans: seq<State>) {
    forall i, j :: 0 <= i < j < |scans| ==> scans[i] != scans[j]
  }

  datatype WalkResult = Found(paths: set<Spelling>) | ScanFailed(directory: Spelling)

  /** The walk finds exactly the selected spellings, unless a directory it must enter cannot be
      listed, which it then names, and scans each directory at most once per segment. */
  method RunWalk(w: Walk) returns (result: WalkResult, ghost scans: seq<State>)
    requires w.Valid()
    ensures result.Found? ==> forall p :: p in result.paths <==> w.Selects(p)
    ensures result.Found? ==> NoRepeats(scans) && forall k :: 0 <= k < |scans| ==> scans[k] in w.States()
    ensures result.Found? <==> forall d :: w.MustEnter(d) ==> d in w.tree
    ensures result.ScanFailed? ==> w.MustEnter(result.directory) && result.directory !in w.tree
  {
    var found: set<Spelling>, visited: set<State> := {}, {};
    var pending := [Frame([], 0, None)];
    scans := [];
    InitiallyWalking(w);
    while pending != []
      invariant w.Walking(visited, pending, found) && visited <= w.States()
      invariant NoRepeats(scans) && forall k :: 0 <= k < |scans| ==> scans[k] in visited
      decreases w.States() - visited, |pending|
    {
      var frame, rest := pending[|pending| - 1], pending[..|pending| - 1];
      var key := (frame.prefix, frame.index);
      assert pending == rest + [frame];
      if key in visited {
        Skip(w, visited, pending, found);
        pending := rest;
      } else {
        assert w.Sound(key) && w.Carried(frame) by {
          KeysAppend(rest, [frame]);
          OneKey(frame);
        }
        var entries;
        if frame.entries.Some? {
          entries := frame.entries.value;
        } else {
          if frame.prefix !in w.tree {
            return ScanFailed(frame.prefix), scans;
          }
          scans := scans + [key];
          entries := RetainedEntries(w, w.tree[frame.prefix], frame.prefix);
        }
        var frames, more;
        if w.segments[frame.index] == RECURSIVE_SEGMENT {
          frames, more := RecursiveFrames(w, frame, entries, found);
        } else {
          frames, more := NamedFrames(w, frame, entries, found);
        }
        Expand(w, visited, rest, frame, found, frames, more);
        visited, pending, found := visited + {key}, rest + frames, more;
      }
    }
    Finished(w, visited, found);
    EnteredAll(w, visited, found);
    return Found(found), scans;
  }

  lemma InitiallyWalking(w: Walk)
    requires w.Valid()
    ensures w.Walking({}, [Frame([], 0, None)], {})
  {
    var pending := [Frame([], 0, None)];
    OneKey(Frame([], 0, None));
    assert w.Sound(([], 0)) by {
      assert w.segments[0..] == w.segments;
      forall rest: Parts ensures [] + rest == rest {}
    }
  }

  // ---- several selectors -------------------------------------------------------------

  datatype Selection =
    | Matched(paths: map<Spelling, set<Segments>>)
    | NoSelectors
    | NoMatch(selector: Segments)
    | Unlisted(directory: Spelling)

  ghost predicate SelectedBy(tree: Tree, matches: Matcher, exclusions: seq<Segments>, p: Spelling, segments: Segments)
  {
    Walk(tree, matches, segments, exclusions).Selects(p)
  }

  /** Each path that one of the selectors selects maps to all of those that do. */
  ghost predicate Credits(paths: map<Spelling, set<Segments>>, tree: Tree, matches: Matcher,
                          selectors: seq<Segments>, exclusions: seq<Segments>)
  {
    && (forall p, s :: p in paths && s in paths[p] ==> s in selectors && SelectedBy(tree, matches, exclusions, p, s))
    && (forall p, s :: s in selectors && SelectedBy(tree, matches, exclusions, p, s) ==> p in paths && s in paths[p])
    && (forall p :: p in paths ==> paths[p] != {})
  }

  lemma CreditsNext(paths: map<Spelling, set<Segments>>, tree: Tree, matches: Matcher,
                    selectors: seq<Segments>, exclusions: seq<Segments>, segments: Segments, found: set<Spelling>)
    requires Credits(paths, tree, matches, selectors, exclusions)
    requires forall p :: p in found <==> SelectedBy(tree, matches, exclusions, p, segments)
    ensures Credits(Credited(paths, found, segments), tree, matches, selectors + [segments], exclusions)
  {
    var now := Credited(paths, found, segments);
    forall p, s | s in selectors + [segments] && SelectedBy(tree, matches, exclusions, p, s)
      ensures p in now && s in now[p]
    {
      if s in selectors { assert p in paths && s in paths[p]; }
    }
    forall p, s | p in now && s in now[p]
      ensures s in selectors + [segments] && SelectedBy(tree, matches, exclusions, p, s)
    {
      if p in paths && s in paths[p] {
        assert s in selectors;
      } else {
        assert s == segments == (selectors + [segments])[|selectors|];
      }
    }
  }

  function Credited(paths: map<Spelling, set<Segments>>, found: set<Spelling>, segments: Segments)
    : map<Spelling, set<Segments>>
  {
    map p | p in paths.Keys + found ::
      (if p in paths then paths[p] else {}) + (if p in found then {segments} else {})
  }

  /** The paths the selectors select, each with every selector that selects it. A selector that
      selects nothing is refused. */
  method SelectPaths(tree: Tree, matches: Matcher, selectors: seq<Segments>, exclusions: seq<Segments>)
    returns (r: Selection)
    requires (forall s :: s in selectors ==> s != []) && (forall s :: s in exclusions ==> s != [])
    ensures r.NoSelectors? <==> selectors == []
    ensures r.Matched? ==> Credits(r.paths, tree, matches, selectors, exclusions)
    ensures r.Matched? ==> forall s :: s in selectors ==> exists p :: SelectedBy(tree, matches, exclusions, p, s)
    ensures r.NoMatch? ==> r.selector in selectors && forall p :: !SelectedBy(tree, matches, exclusions, p, r.selector)
    ensures r.Unlisted? ==>
      r.directory !in tree && exists s :: s in selectors && Walk(tree, matches, s, exclusions).MustEnter(r.directory)
  {
    if selectors == [] { return NoSelectors; }
    var paths: map<Spelling, set<Segments>> := map[];
    for i := 0 to |selectors|
      invariant Credits(paths, tree, matches, selectors[..i], exclusions)
      invariant forall s :: s in selectors[..i] ==> exists p :: SelectedBy(tree, matches, exclusions, p, s)
    {
      var segments := selectors[i];
      assert segments in selectors;
      var w := Walk(tree, matches, segments, exclusions);
      var result;
      ghost var scans;
      result, scans := RunWalk(w);
      match result {
        case ScanFailed(directory) => return Unlisted(directory);
        case Found(found) =>
          assert forall p :: p in found <==> SelectedBy(tree, matches, exclusions, p, segments);
          if found == {} { return NoMatch(segments); }
          ghost var p :| p in found;
          CreditsNext(paths, tree, matches, selectors[..i], exclusions, segments, found);
          paths := Credited(paths, found, segments);
          assert selectors[..i + 1] == selectors[..i] + [segments];
      }
    }
    assert selectors[..|selectors|] == selectors;
    return Matched(paths);
  }
}
