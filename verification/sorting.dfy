/** Python's `sorted(...)` applied to a set of strings: the one strictly
    increasing sequence, in Python's string order, that holds exactly the
    set's elements. */
module Sorting {
  import opened PyStr

  /** Every element is smaller than every later one: sorted, and no
      element twice. */
  predicate StrictlyIncreasing(xs: seq<string>)
  {
    forall i, j :: 0 <= i < j < |xs| ==> Less(xs[i], xs[j])
  }

  /** Adding `x` to the set a strictly increasing sequence represents. */
  function Insert(x: string, xs: seq<string>): (r: seq<string>)
    requires StrictlyIncreasing(xs)
    ensures StrictlyIncreasing(r)
    ensures forall y :: y in r <==> y == x || y in xs
  {
    if xs == [] then [x]
    else if x == xs[0] then xs
    else if Less(x, xs[0]) then
      assert StrictlyIncreasing([x] + xs) by {
        forall j | 0 < j < |xs| {
          LessTransitive(x, xs[0], xs[j]);
        }
      }
      [x] + xs
    else
      LessTotal(x, xs[0]);
      var rest := Insert(x, xs[1..]);
      assert forall y :: y in rest ==> Less(xs[0], y);
      [xs[0]] + rest
  }

  /** Python's `sorted(set(xs))`. */
  function SortedUnique(xs: seq<string>): (r: seq<string>)
    ensures StrictlyIncreasing(r)
    ensures forall y :: y in r <==> y in xs
  {
    if xs == [] then []
    else
      var r := Insert(xs[|xs| - 1], SortedUnique(xs[..|xs| - 1]));
      assert xs == xs[..|xs| - 1] + [xs[|xs| - 1]];
      r
  }

  /** There is only one strictly increasing sequence with a given set of
      elements, so `sorted` of a set does not depend on how the set was
      built or in which order it is traversed. */
  lemma {:induction false} StrictlyIncreasingUnique(a: seq<string>, b: seq<string>)
    requires StrictlyIncreasing(a) && StrictlyIncreasing(b)
    requires forall y :: y in a <==> y in b
    ensures a == b
  {
    assert a != [] ==> a[0] in b;
    assert b != [] ==> b[0] in a;
    if a != [] {
      assert a[0] == b[0] by {
        if a[0] != b[0] {
          assert b[0] in a && a[0] in b;
          var i :| 0 <= i < |a| && a[i] == b[0];
          var j :| 0 <= j < |b| && b[j] == a[0];
          assert Less(a[0], b[0]) && Less(b[0], a[0]);
          LessTotal(a[0], b[0]);
        }
      }
      forall y
        ensures y in a[1..] <==> y in b[1..]
      {
        LessIrreflexive(a[0]);
        if y in a[1..] {
          var i :| 0 <= i < |a[1..]| && a[1..][i] == y;
          assert y != a[0] by { assert Less(a[0], a[i + 1]); }
          assert y in b;
          var j :| 0 <= j < |b| && b[j] == y;
          assert b[1..][j - 1] == y;
        }
        if y in b[1..] {
          var j :| 0 <= j < |b[1..]| && b[1..][j] == y;
          assert y != b[0] by { assert Less(b[0], b[j + 1]); }
          assert y in a;
          var i :| 0 <= i < |a| && a[i] == y;
          assert a[1..][i - 1] == y;
        }
      }
      StrictlyIncreasingUnique(a[1..], b[1..]);
      assert a == [a[0]] + a[1..] && b == [b[0]] + b[1..];
    }
  }

  /** `sorted(s)` for a set `s` of strings: the elements of `s` in
      increasing order, each once. */
  method Sorted(s: set<string>) returns (r: seq<string>)
    ensures StrictlyIncreasing(r)
    ensures forall y :: y in r <==> y in s
  {
    r := [];
    var rest := s;
    while rest != {}
      invariant rest <= s
      invariant StrictlyIncreasing(r)
      invariant forall y :: y in r <==> y in s && y !in rest
      decreases rest
    {
      var x :| x in rest;
      r := Insert(x, r);
      rest := rest - {x};
    }
  }

  /** `sorted(set(xs))` computed by `Sorted` is `SortedUnique(xs)`. */
  lemma SortedOfSet(xs: seq<string>, r: seq<string>)
    requires StrictlyIncreasing(r)
    requires forall y :: y in r <==> y in xs
    ensures r == SortedUnique(xs)
  {
    StrictlyIncreasingUnique(r, SortedUnique(xs));
  }
}
