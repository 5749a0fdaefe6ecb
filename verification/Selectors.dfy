/** Selector matching: the position-set matcher against the recursive meaning of a selector. */
module Selectors {

  /** A validated selector's segments, and a spelling's parts, both between separators. */
  type Segments = seq<string>
  type Parts = seq<string>

  /** Whether one entry name matches one non-recursive segment. */
  type Matcher = (string, string) -> bool

  const RECURSIVE_SEGMENT := "**"

  /** What a selector means: `**` stands for zero or more directories, and as the last segment
      for everything beneath; every other segment stands for one name. */
  predicate Matches(matches: Matcher, segments: Segments, parts: Parts)
    decreases |segments| + |parts|
  {
    if segments == [] then parts == []
    else if segments[0] == RECURSIVE_SEGMENT then
      if |segments| == 1 then parts != []
      else (Matches(matches, segments[1..], parts)
            || (parts != [] && Matches(matches, segments, parts[1..])))
    else parts != [] && matches(parts[0], segments[0]) && Matches(matches, segments[1..], parts[1..])
  }

  /** A selector makes a spelling unreachable when it matches it or a directory above it. */
  predicate Prunes(matches: Matcher, segments: Segments, parts: Parts)
  {
    exists n :: 0 < n <= |parts| && Matches(matches, segments, parts[..n])
  }

  lemma {:induction false} NeedsAName(matches: Matcher, segments: Segments)
    requires segments != []
    ensures !Matches(matches, segments, [])
  {
    if segments[0] == RECURSIVE_SEGMENT && |segments| > 1 {
      NeedsAName(matches, segments[1..]);
    }
  }

  // ---- the recursive closure ---------------------------------------------------------

  function Positions(n: nat): (r: set<nat>)
    ensures forall p: nat :: p in r <==> p < n
  {
    if n == 0 then {} else {n - 1} + Positions(n - 1)
  }

  /** `p` is reached from `q` by consuming no directory. */
  predicate Steps(segments: Segments, q: nat, p: nat)
  {
    q <= p < |segments| && forall r :: q <= r < p ==> segments[r] == RECURSIVE_SEGMENT
  }

  ghost predicate Reached(segments: Segments, positions: set<nat>, p: nat)
  {
    exists q :: q in positions && Steps(segments, q, p)
  }

  /** A position on a recursive segment is also one on the segment after it. */
  ghost predicate SteppedAt(segments: Segments, closed: set<nat>, p: nat)
  {
    p < |segments| - 1 && segments[p] == RECURSIVE_SEGMENT ==> p + 1 in closed
  }

  ghost predicate Stepped(segments: Segments, closed: set<nat>)
  {
    forall p {:trigger SteppedAt(segments, closed, p)} :: p in closed ==> SteppedAt(segments, closed, p)
  }

  lemma {:induction false} SteppedReaches(segments: Segments, closed: set<nat>, q: nat, p: nat)
    requires Stepped(segments, closed) && q in closed && Steps(segments, q, p)
    ensures p in closed
    decreases p
  {
    if q < p {
      SteppedReaches(segments, closed, q, p - 1);
      assert SteppedAt(segments, closed, p - 1);
    }
  }

  /** Every position found so far is reached, and is pending or has been stepped from. */
  ghost predicate Closing(segments: Segments, positions: set<nat>, closed: set<nat>, pending: seq<nat>)
  {
    && positions <= closed <= Positions(|segments|)
    && (forall k :: 0 <= k < |pending| ==> pending[k] in closed)
    && (forall p {:trigger Reached(segments, positions, p)} :: p in closed ==> Reached(segments, positions, p))
    && (forall p {:trigger SteppedAt(segments, closed, p)} :: p in closed ==>
          p in pending || SteppedAt(segments, closed, p))
  }

  lemma Popped(segments: Segments, positions: set<nat>, closed: set<nat>, pending: seq<nat>)
    requires Closing(segments, positions, closed, pending) && pending != []
    ensures var position, rest := pending[|pending| - 1], pending[..|pending| - 1];
      && position in closed && position < |segments|
      && if SteppedAt(segments, closed, position)
         then Closing(segments, positions, closed, rest)
         else Closing(segments, positions, closed + {position + 1}, rest + [position + 1])
  {
    var position, rest := pending[|pending| - 1], pending[..|pending| - 1];
    assert pending == rest + [position];
    assert position in Positions(|segments|);
    if !SteppedAt(segments, closed, position) {
      assert Reached(segments, positions, position);
      var q :| q in positions && Steps(segments, q, position);
      assert Steps(segments, q, position + 1);
      var now, more := closed + {position + 1}, rest + [position + 1];
      forall p | p in now ensures p in more || SteppedAt(segments, now, p) {
        if p in closed && p != position { assert p in pending || SteppedAt(segments, closed, p); }
      }
    } else {
      forall p | p in closed ensures p in rest || SteppedAt(segments, closed, p) {
      }
    }
  }

  lemma Closed(segments: Segments, positions: set<nat>, closed: set<nat>)
    requires Closing(segments, positions, closed, [])
    ensures forall p :: p in closed <==> Reached(segments, positions, p)
    ensures Stepped(segments, closed)
  {
    forall p | Reached(segments, positions, p) ensures p in closed {
      var q :| q in positions && Steps(segments, q, p);
      SteppedReaches(segments, closed, q, p);
    }
  }

  method RecursiveClosure(positions: set<nat>, segments: Segments) returns (closed: set<nat>)
    requires forall p :: p in positions ==> p < |segments|
    ensures forall p :: p in closed <==> Reached(segments, positions, p)
    ensures Stepped(segments, closed) && positions <= closed
  {
    var end := |segments| - 1;
    closed := positions;
    var pending: seq<nat> := Listed(positions);
    forall p | p in closed ensures Reached(segments, positions, p) {
      assert Steps(segments, p, p);
    }
    while pending != []
      invariant Closing(segments, positions, closed, pending)
      decreases Positions(|segments|) - closed, |pending|
    {
      Popped(segments, positions, closed, pending);
      var position := pending[|pending| - 1];
      pending := pending[..|pending| - 1];
      if segments[position] == RECURSIVE_SEGMENT && position < end {
        if position + 1 !in closed {
          closed := closed + {position + 1};
          pending := pending + [position + 1];
        }
      }
    }
    Closed(segments, positions, closed);
  }

  /** The elements of a set, in some order. */
  method Listed(s: set<nat>) returns (r: seq<nat>)
    ensures forall x :: x in r <==> x in s
  {
    r := [];
    var todo := s;
    while todo != {}
      invariant todo <= s && forall x :: x in r <==> x in s && x !in todo
      decreases todo
    {
      var x :| x in todo;
      r := r + [x];
      todo := todo - {x};
    }
  }

  // ---- positions stand for what is left to match ---------------------------------------

  /** What is left of the selector at some position matches what is left of the spelling. */
  ghost predicate SomeMatch(matches: Matcher, segments: Segments, positions: set<nat>, rest: Parts)
  {
    exists p :: p in positions && p <= |segments| && Matches(matches, segments[p..], rest)
  }

  /** Consuming no directory changes nothing. */
  lemma {:induction false} StepsKeepMatches(matches: Matcher, segments: Segments, q: nat, p: nat, rest: Parts)
    requires Steps(segments, q, p) && Matches(matches, segments[p..], rest)
    ensures Matches(matches, segments[q..], rest)
    decreases p - q
  {
    if q < p {
      StepsKeepMatches(matches, segments, q + 1, p, rest);
      assert segments[q..][1..] == segments[q + 1..];
    }
  }

  lemma ClosureKeepsMatches(matches: Matcher, segments: Segments, positions: set<nat>, closed: set<nat>, rest: Parts)
    requires forall p :: p in closed <==> Reached(segments, positions, p)
    requires positions <= closed
    ensures SomeMatch(matches, segments, positions, rest) <==> SomeMatch(matches, segments, closed, rest)
  {
    if SomeMatch(matches, segments, closed, rest) {
      var p :| p in closed && p <= |segments| && Matches(matches, segments[p..], rest);
      var q :| q in positions && Steps(segments, q, p);
      StepsKeepMatches(matches, segments, q, p, rest);
    }
  }

  /** Where one directory takes a position: a recursive segment keeps it, any other but the
      last passes it on. */
  predicate Takes(matches: Matcher, segments: Segments, part: string, p: nat, next: nat)
  {
    p < |segments|
    && if segments[p] == RECURSIVE_SEGMENT then next == p
       else next == p + 1 && p < |segments| - 1 && matches(part, segments[p])
  }

  ghost predicate Advanced(matches: Matcher, segments: Segments, part: string, closed: set<nat>, next: nat)
  {
    exists p :: p in closed && Takes(matches, segments, part, p, next)
  }

  lemma {:induction false} MatchAdvances(matches: Matcher, segments: Segments, closed: set<nat>, rest: Parts,
                                         p: nat) returns (next: nat)
    requires Stepped(segments, closed) && p in closed && p < |segments| && |rest| > 1
    requires Matches(matches, segments[p..], rest)
    ensures Advanced(matches, segments, rest[0], closed, next)
    ensures next < |segments| && Matches(matches, segments[next..], rest[1..])
    decreases |segments| - p
  {
    assert segments[p..][1..] == segments[p + 1..];
    next := p;
    if segments[p] != RECURSIVE_SEGMENT {
      next := p + 1;
      assert Takes(matches, segments, rest[0], p, next);
    } else if p < |segments| - 1 && Matches(matches, segments[p + 1..], rest) {
      assert SteppedAt(segments, closed, p);
      next := MatchAdvances(matches, segments, closed, rest, p + 1);
    } else {
      assert Takes(matches, segments, rest[0], p, next);
    }
  }

  /** One more directory: some position matches exactly if some advanced one does. */
  lemma AdvanceKeepsMatches(matches: Matcher, segments: Segments, closed: set<nat>, advanced: set<nat>,
                            rest: Parts)
    requires Stepped(segments, closed) && |rest| > 1
    requires forall p :: p in closed ==> p < |segments|
    requires forall p :: p in advanced <==> Advanced(matches, segments, rest[0], closed, p)
    ensures SomeMatch(matches, segments, closed, rest) <==> SomeMatch(matches, segments, advanced, rest[1..])
  {
    if SomeMatch(matches, segments, closed, rest) {
      var p :| p in closed && p <= |segments| && Matches(matches, segments[p..], rest);
      var next := MatchAdvances(matches, segments, closed, rest, p);
    }
    if SomeMatch(matches, segments, advanced, rest[1..]) {
      var next :| next in advanced && next <= |segments| && Matches(matches, segments[next..], rest[1..]);
      var p :| p in closed && Takes(matches, segments, rest[0], p, next);
      assert segments[p..][1..] == segments[p + 1..];
      assert Matches(matches, segments[p..], rest);
    }
  }

  /** The last name: only the last segment can take it. */
  lemma LastName(matches: Matcher, segments: Segments, closed: set<nat>, part: string)
    requires Stepped(segments, closed)
    requires forall p :: p in closed ==> p < |segments|
    ensures SomeMatch(matches, segments, closed, [part])
        <==> |segments| - 1 in closed
             && (segments[|segments| - 1] == RECURSIVE_SEGMENT || matches(part, segments[|segments| - 1]))
  {
    var end := |segments| - 1;
    if end in closed && (segments[end] == RECURSIVE_SEGMENT || matches(part, segments[end])) {
      assert segments[end..] == [segments[end]];
      assert Matches(matches, segments[end..], [part]);
    }
    if SomeMatch(matches, segments, closed, [part]) {
      var p :| p in closed && p <= |segments| && Matches(matches, segments[p..], [part]);
      LastNameFrom(matches, segments, closed, part, p);
    }
  }

  lemma {:induction false} LastNameFrom(matches: Matcher, segments: Segments, closed: set<nat>, part: string, p: nat)
    requires Stepped(segments, closed) && p in closed && p < |segments|
    requires Matches(matches, segments[p..], [part])
    ensures |segments| - 1 in closed
    ensures segments[|segments| - 1] == RECURSIVE_SEGMENT || matches(part, segments[|segments| - 1])
    decreases |segments| - p
  {
    if p < |segments| - 1 {
      assert segments[p..][1..] == segments[p + 1..];
      NeedsAName(matches, segments[p..]);
      NeedsAName(matches, segments[p + 1..]);
      assert SteppedAt(segments, closed, p);
      LastNameFrom(matches, segments, closed, part, p + 1);
    }
  }

  // ---- the matcher -------------------------------------------------------------------

  /** One directory taken by every position. */
  method Advance(matches: Matcher, segments: Segments, part: string, closed: set<nat>)
    returns (advanced: set<nat>)
    requires forall p :: p in closed ==> p < |segments|
    ensures forall p :: p in advanced <==> Advanced(matches, segments, part, closed, p)
  {
    var end := |segments| - 1;
    advanced := {};
    var todo := closed;
    while todo != {}
      invariant todo <= closed
      invariant forall p :: p in advanced <==> Advanced(matches, segments, part, closed - todo, p)
      decreases todo
    {
      var position :| position in todo;
      ghost var done := closed - todo;
      todo := todo - {position};
      assert closed - todo == done + {position};
      forall p: nat
        ensures Advanced(matches, segments, part, done + {position}, p)
           <==> Advanced(matches, segments, part, done, p) || Takes(matches, segments, part, position, p)
      {
      }
      if segments[position] == RECURSIVE_SEGMENT {
        advanced := advanced + {position};
      } else if position < end && matches(part, segments[position]) {
        advanced := advanced + {position + 1};
      }
    }
    assert closed - todo == closed;
  }

  /** The position-set matcher decides exactly the recursive meaning. */
  method SelectorMatchesPath(matches: Matcher, segments: Segments, parts: Parts) returns (r: bool)
    requires segments != [] && parts != []
    ensures r <==> Matches(matches, segments, parts)
  {
    var end := |segments| - 1;
    var positions: set<nat> := {0};
    assert segments[0..] == segments && parts[0..] == parts;
    for i := 0 to |parts| - 1
      invariant forall p :: p in positions ==> p < |segments|
      invariant Matches(matches, segments, parts) <==> SomeMatch(matches, segments, positions, parts[i..])
    {
      var closed := RecursiveClosure(positions, segments);
      ClosureKeepsMatches(matches, segments, positions, closed, parts[i..]);
      var advanced := Advance(matches, segments, parts[i], closed);
      AdvanceKeepsMatches(matches, segments, closed, advanced, parts[i..]);
      assert parts[i..][1..] == parts[i + 1..];
      if advanced == {} {
        return false;
      }
      positions := advanced;
    }
    var last := parts[|parts| - 1];
    assert parts[|parts| - 1..] == [last];
    var closed := RecursiveClosure(positions, segments);
    ClosureKeepsMatches(matches, segments, positions, closed, [last]);
    LastName(matches, segments, closed, last);
    return end in closed && (segments[end] == RECURSIVE_SEGMENT || matches(last, segments[end]));
  }

  /** Some prefix of the spelling is matched. */
  method SelectorPrunesPath(matches: Matcher, segments: Segments, parts: Parts) returns (r: bool)
    requires segments != []
    ensures r <==> Prunes(matches, segments, parts)
  {
    for index := 0 to |parts|
      invariant forall n :: 0 < n <= index ==> !Matches(matches, segments, parts[..n])
    {
      var matched := SelectorMatchesPath(matches, segments, parts[..index + 1]);
      if matched { return true; }
    }
    return false;
  }

  // ---- two consequences the grammar's documentation promises ---------------------------

  /** Adjacent recursive segments mean no more than one. */
  lemma {:induction false} AdjacentRecursive(matches: Matcher, segments: Segments, parts: Parts)
    requires |segments| > 1 && segments[0] == segments[1] == RECURSIVE_SEGMENT
    ensures Matches(matches, segments, parts) <==> Matches(matches, segments[1..], parts)
    decreases |parts|
  {
    if parts != [] {
      AdjacentRecursive(matches, segments, parts[1..]);
      var tail := segments[1..];
      if Matches(matches, tail, parts[1..]) && |tail| == 1 {
        assert Matches(matches, tail, parts);
      }
    }
  }

  /** A directory followed by a final recursive segment covers exactly what lies beneath it. */
  lemma {:induction false} CoversBeneath(matches: Matcher, segments: Segments, parts: Parts)
    requires RECURSIVE_SEGMENT !in segments
    ensures Matches(matches, segments + [RECURSIVE_SEGMENT], parts)
        <==> |parts| > |segments| && Matches(matches, segments, parts[..|segments|])
  {
    var whole := segments + [RECURSIVE_SEGMENT];
    if segments != [] {
      assert whole[1..] == segments[1..] + [RECURSIVE_SEGMENT];
      assert whole[0] == segments[0] && segments[0] in segments;
      if parts != [] {
        CoversBeneath(matches, segments[1..], parts[1..]);
        if |parts| > |segments| {
          assert parts[..|segments|][1..] == parts[1..][..|segments[1..]|];
        }
      }
    }
  }
}
