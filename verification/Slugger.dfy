/** Document-order slug allocation: the counter-driven deduplicator against the naive rule. */
module Slugger {

  // ---- decimal suffixes --------------------------------------------------------------

  function Digit(n: nat): (c: char)
    requires n < 10
    ensures c == '0' + n as char
  {
    '0' + n as char
  }

  function Decimal(n: nat): (s: string)
    ensures s != []
  {
    if n < 10 then [Digit(n)] else Decimal(n / 10) + [Digit(n % 10)]
  }

  /** The number a run of digits stands for. */
  ghost function NumberOf(digits: string): int
  {
    if digits == [] then 0
    else 10 * NumberOf(digits[..|digits| - 1]) + digits[|digits| - 1] as int - '0' as int
  }

  /** A suffix is written in decimal digits, without leading zeros, and reads back as its number. */
  lemma {:induction false} DecimalReads(n: nat)
    ensures NumberOf(Decimal(n)) == n
    ensures forall i :: 0 <= i < |Decimal(n)| ==> '0' <= Decimal(n)[i] <= '9'
    ensures n > 0 ==> Decimal(n)[0] != '0'
  {
    var s := Decimal(n);
    assert s[|s| - 1] == Digit(n % 10);
    if n >= 10 {
      DecimalReads(n / 10);
      assert s[..|s| - 1] == Decimal(n / 10);
    } else {
      assert s[..|s| - 1] == [];
    }
  }

  lemma {:induction false} DecimalInjective(m: nat, n: nat)
    requires Decimal(m) == Decimal(n)
    ensures m == n
  {
    DecimalReads(m);
    DecimalReads(n);
  }

  /** The k-th candidate of a base slug; the 0-th is the base itself. */
  function Candidate(base: string, k: nat): string
  {
    if k == 0 then base else base + "-" + Decimal(k)
  }

  lemma CandidatesDiffer(base: string, j: nat, k: nat)
    requires Candidate(base, j) == Candidate(base, k)
    ensures j == k
  {
    assert j > 0 ==> |Candidate(base, j)| > |base|;
    assert k > 0 ==> |Candidate(base, k)| > |base|;
    if j > 0 {
      assert Candidate(base, j)[|base| + 1..] == Decimal(j);
      assert Candidate(base, k)[|base| + 1..] == Decimal(k);
      DecimalInjective(j, k);
    }
  }

  // ---- the naive rule ----------------------------------------------------------------

  /** The least candidate index from `k` on that is not taken. */
  function LeastFree(base: string, taken: set<string>, k: nat): (r: nat)
    ensures r >= k && Candidate(base, r) !in taken
    ensures forall j :: k <= j < r ==> Candidate(base, j) in taken
    decreases |taken|
  {
    if Candidate(base, k) !in taken then k
    else
      var r := LeastFree(base, taken - {Candidate(base, k)}, k + 1);
      assert Candidate(base, r) !in taken by {
        if Candidate(base, r) == Candidate(base, k) { CandidatesDiffer(base, r, k); }
      }
      r
  }

  /** The base slug if it is unused, else the base with the least unused suffix. */
  function Naive(base: string, taken: set<string>): string
  {
    Candidate(base, LeastFree(base, taken, 0))
  }

  lemma LeastFreeUnique(base: string, taken: set<string>, k: nat)
    requires Candidate(base, k) !in taken
    requires forall j :: 0 <= j < k ==> Candidate(base, j) in taken
    ensures LeastFree(base, taken, 0) == k
  {
  }

  // ---- the deduplicator --------------------------------------------------------------

  /** Every suffix up to a base's counter is already taken. */
  ghost predicate Counted(seen: map<string, nat>)
  {
    forall b, j :: b in seen && 0 <= j <= seen[b] ==> Candidate(b, j) in seen
  }

  /** The candidates examined: the base, then the suffixes after the counter up to the id. */
  ghost predicate ProbesFrom(probes: seq<string>, base: string, counter: nat, k: nat)
  {
    if k == 0 then probes == [base]
    else
      && counter < k && |probes| == 1 + k - counter && probes[0] == base
      && forall i :: 1 <= i < |probes| ==> probes[i] == Candidate(base, counter + i)
  }

  /** Where a search stands: the suffix last tried, every candidate up to it taken, and the
      taken ids not yet examined, which every later candidate that is taken is among. */
  ghost predicate Searching(taken: set<string>, base: string, counter: nat, k: nat, probes: seq<string>,
                            rest: set<string>)
  {
    && (base in taken ==> forall j :: 0 <= j <= counter ==> Candidate(base, j) in taken)
    && (base !in taken ==> counter == 0) && (k > 0 ==> base in taken)
    && ProbesFrom(probes, base, counter, k)
    && (forall j :: 0 <= j < k ==> Candidate(base, j) in taken)
    && rest <= taken && (Candidate(base, k) in taken ==> Candidate(base, k) in rest)
    && (forall j :: j > LastTried(counter, k) && Candidate(base, j) in taken ==> Candidate(base, j) in rest)
  }

  function LastTried(counter: nat, k: nat): nat {
    if k == 0 then counter else k
  }

  /** One more suffix tried. */
  lemma Searched(taken: set<string>, base: string, counter: nat, k: nat, probes: seq<string>, rest: set<string>)
    requires Searching(taken, base, counter, k, probes, rest) && Candidate(base, k) in taken
    ensures var next := LastTried(counter, k) + 1;
      Searching(taken, base, counter, next, probes + [Candidate(base, next)], rest - {Candidate(base, k)})
    ensures Candidate(base, k) in rest
  {
    var next := LastTried(counter, k) + 1;
    forall j | j > LastTried(counter, k) && Candidate(base, j) in taken
      ensures Candidate(base, j) in rest - {Candidate(base, k)}
    {
      if Candidate(base, j) == Candidate(base, k) { CandidatesDiffer(base, j, k); }
    }
  }

  /** Since `was`, only the counter of `base` has changed. */
  ghost predicate OnlyCounter(was: map<string, nat>, seen: map<string, nat>, base: string)
  {
    seen.Keys == was.Keys && forall b :: b in was && b != base ==> seen[b] == was[b]
  }

  lemma CountUp(was: map<string, nat>, seen: map<string, nat>, base: string, n: nat)
    requires OnlyCounter(was, seen, base) && base in seen
    ensures OnlyCounter(was, seen[base := n], base)
  {
  }

  /** Taking the id that was found keeps every counter true. */
  lemma Taken(was: map<string, nat>, seen: map<string, nat>, base: string, k: nat, result: string)
    requires Counted(was) && OnlyCounter(was, seen, base) && result == Candidate(base, k) && result !in was
    requires base in was ==> seen[base] == k
    requires forall j :: 0 <= j < k ==> Candidate(base, j) in was
    ensures Counted(seen[result := 0]) && seen[result := 0].Keys == was.Keys + {result}
  {
    var now := seen[result := 0];
    forall b, j | b in now && 0 <= j <= now[b] ensures Candidate(b, j) in now {
      if b != result && b != base {
        assert Candidate(b, j) in was;
      }
    }
  }

  class Slugger {
    const slugOf: string -> string          // the pinned text-to-base-slug function
    var seen: map<string, nat>

    constructor (slugOf: string -> string)
      ensures seen == map[] && this.slugOf == slugOf && Counted(seen)
    {
      this.slugOf, seen := slugOf, map[];
    }

    /** The next unique slug for heading content, and every candidate examined for it. */
    method SlugWithProbes(text: string) returns (result: string, probes: seq<string>, ghost k: nat)
      requires Counted(seen)
      modifies this
      ensures Counted(seen) && seen.Keys == old(seen).Keys + {result}
      ensures result == Naive(slugOf(text), old(seen).Keys) == Candidate(slugOf(text), k)
      ensures result == if k == 0 then slugOf(text) else slugOf(text) + "-" + Decimal(k)
      ensures result !in old(seen)
      ensures ProbesFrom(probes, slugOf(text),
                         if slugOf(text) in old(seen) then old(seen)[slugOf(text)] else 0, k)
      ensures forall b :: b in old(seen) && b != slugOf(text) ==> seen[b] == old(seen)[b]
      ensures seen[slugOf(text)] == k
      ensures result != slugOf(text) ==> seen[result] == 0
    {
      var base := slugOf(text);
      result, probes, k := base, [base], 0;
      ghost var counter := if base in seen then seen[base] else 0;
      ghost var was, rest := seen, seen.Keys;
      while result in seen
        invariant OnlyCounter(was, seen, base) && (base !in was ==> k == 0)
        invariant base in was ==> seen[base] == LastTried(counter, k)
        invariant result == Candidate(base, k) && Searching(was.Keys, base, counter, k, probes, rest)
        decreases rest
      {
        Searched(was.Keys, base, counter, k, probes, rest);
        CountUp(was, seen, base, seen[base] + 1);
        rest := rest - {result};
        seen := seen[base := seen[base] + 1];
        k := seen[base];
        result := base + "-" + Decimal(seen[base]);
        probes := probes + [result];
      }
      LeastFreeUnique(base, was.Keys, k);
      Taken(was, seen, base, k, result);
      seen := seen[result := 0];
    }
  }
}
