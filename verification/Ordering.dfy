/** Increasing sequences, and sorting a set into one. */
module Ordering {

  predicate Increasing(s: seq<nat>)
  {
    forall i, j :: 0 <= i < j < |s| ==> s[i] < s[j]
  }

  function Insert(s: seq<nat>, x: nat): seq<nat>
  {
    if s == [] || x < s[0] then [x] + s else [s[0]] + Insert(s[1..], x)
  }

  lemma {:induction false} InsertKeepsOrder(s: seq<nat>, x: nat)
    requires Increasing(s) && x !in s
    ensures Increasing(Insert(s, x))
    ensures forall y :: y in Insert(s, x) <==> y == x || y in s
  {
    if s != [] && x >= s[0] {
      InsertKeepsOrder(s[1..], x);
      assert s == [s[0]] + s[1..];
      var rest := Insert(s[1..], x);
      forall i | 0 <= i < |rest| ensures s[0] < rest[i] {
        assert rest[i] in rest;
      }
    } else {
      assert forall y :: y in [x] + s <==> y == x || y in s;
    }
  }

  method Sorted(lines: set<nat>) returns (order: seq<nat>)
    ensures Increasing(order) && forall l :: l in order <==> l in lines
  {
    order := [];
    var todo := lines;
    while todo != {}
      invariant Increasing(order) && todo <= lines
      invariant forall l :: l in order <==> l in lines && l !in todo
      decreases todo
    {
      var l :| l in todo;
      InsertKeepsOrder(order, l);
      order := Insert(order, l);
      todo := todo - {l};
    }
  }
}
