/** Walking a set of numbers in increasing order. */
module Sorting {
  predicate Ascending(s: seq<nat>) {
    forall i, j :: 0 <= i < j < |s| ==> s[i] < s[j]
  }

  ghost predicate IsLeast(x: nat, s: set<nat>) {
    x in s && forall y :: y in s ==> x <= y
  }

  lemma Smaller(x: nat, s: set<nat>) returns (z: nat)
    requires x in s && !IsLeast(x, s)
    ensures z in s && z < x
  {
    z :| z in s && z < x;
  }

  lemma {:induction false} LeastExists(s: set<nat>)
    requires s != {}
    ensures exists x :: IsLeast(x, s)
    decreases |s|
  {
    var x :| x in s;
    if !IsLeast(x, s) {
      var z := Smaller(x, s);
      var rest := s - {x};
      LeastExists(rest);
      var m :| IsLeast(m, rest);
      forall y | y in s
        ensures m <= y
      {
        assert z in rest && (y == x || y in rest);
      }
      assert IsLeast(m, s);
    }
  }

  /** The elements of a set in increasing order. */
  ghost function Listed(s: set<nat>): (r: seq<nat>)
    ensures Ascending(r) && forall x :: x in r <==> x in s
  {
    if s == {} then []
    else
      LeastExists(s);
      var m :| IsLeast(m, s);
      [m] + Listed(s - {m})
  }

  lemma HeadIn(s: seq<nat>)
    ensures s != [] ==> s[0] in s
  {
  }

  lemma {:induction false} AscendingIsUnique(a: seq<nat>, b: seq<nat>)
    requires Ascending(a) && Ascending(b) && forall x :: x in a <==> x in b
    ensures a == b
    decreases |a|
  {
    HeadIn(a);
    HeadIn(b);
    if a != [] {
      assert a[0] == b[0];
      forall x
        ensures x in a[1..] <==> x in b[1..]
      {
        assert x in a[1..] <==> x in a && x != a[0];
        assert x in b[1..] <==> x in b && x != b[0];
      }
      AscendingIsUnique(a[1..], b[1..]);
    }
  }

  /** Lists the elements of a set in increasing order. */
  method Sort(s: set<nat>) returns (sorted: seq<nat>)
    ensures Ascending(sorted) && forall x :: x in sorted <==> x in s
    ensures sorted == Listed(s)
  {
    sorted := [];
    var rest := s;
    while rest != {}
      invariant rest <= s
      invariant forall x :: x in sorted <==> x in s && x !in rest
      invariant Ascending(sorted)
      invariant forall i, y :: 0 <= i < |sorted| && y in rest ==> sorted[i] < y
      decreases |rest|
    {
      var x := Least(rest);
      sorted := sorted + [x];
      rest := rest - {x};
    }
    AscendingIsUnique(sorted, Listed(s));
  }

  method Least(s: set<nat>) returns (x: nat)
    requires s != {}
    ensures IsLeast(x, s)
  {
    x :| x in s;
    var rest := s - {x};
    while rest != {}
      invariant rest <= s && x in s
      invariant forall y :: y in s ==> y in rest || x <= y
      decreases |rest|
    {
      var y :| y in rest;
      if y < x {
        x := y;
      }
      rest := rest - {y};
    }
  }
}
