/**
 * Python's `sorted(...)` and `sorted(set(...))` over strings, as functional
 * insertion sorts, with their order and content guarantees.
 */
module Sorting {
  import opened Strings

  /** Strictly increasing: sorted and duplicate-free. */
  predicate StrictlySorted(s: seq<string>) {
    forall i, j | 0 <= i < j < |s| :: Less(s[i], s[j])
  }

  /** Non-decreasing under Python's string order. */
  predicate Sorted(s: seq<string>) {
    forall i, j | 0 <= i < j < |s| :: !Less(s[j], s[i])
  }

  function InsertDistinct(x: string, s: seq<string>): (r: seq<string>)
    requires StrictlySorted(s)
    ensures StrictlySorted(r)
    ensures forall y :: y in r <==> y == x || y in s
  {
    if |s| == 0 then [x]
    else if x == s[0] then s
    else if Less(x, s[0]) then
      assert forall j | 0 < j < |s| :: Less(x, s[j]) by {
        forall j | 0 < j < |s| ensures Less(x, s[j]) {
          LessTransitive(x, s[0], s[j]);
        }
      }
      [x] + s
    else
      LessTotal(x, s[0]);
      var t := InsertDistinct(x, s[1..]);
      assert forall y | y in t :: Less(s[0], y);
      [s[0]] + t
  }

  /** Python `sorted(set(xs))`: strictly increasing, holding exactly the
      elements of `xs`. */
  function SortedSet(xs: seq<string>): (r: seq<string>)
    ensures StrictlySorted(r)
    ensures forall y :: y in r <==> y in xs
  {
    if |xs| == 0 then [] else InsertDistinct(xs[|xs| - 1], SortedSet(xs[..|xs| - 1]))
  }

  /** Two strictly sorted sequences with the same elements are equal, so
      `sorted(set(xs))` depends only on the set of elements of `xs`. */
  lemma {:induction false} StrictlySortedUnique(a: seq<string>, b: seq<string>)
    requires StrictlySorted(a) && StrictlySorted(b)
    requires forall y :: y in a <==> y in b
    ensures a == b
  {
    if |a| > 0 && |b| > 0 {
      if a[0] != b[0] {
        assert a[0] in b;
        assert b[0] in a;
        var i :| 0 <= i < |b| && b[i] == a[0];
        var j :| 0 <= j < |a| && a[j] == b[0];
        assert i > 0 && j > 0;
        LessAsymmetric(b[0], a[0]);
        assert false;
      }
      forall y ensures y in a[1..] <==> y in b[1..] {
        if y in a[1..] {
          var k :| 1 <= k < |a| && a[k] == y;
          assert Less(a[0], y);
          LessIrreflexive(y);
          assert y in b;
          var m :| 0 <= m < |b| && b[m] == y;
          assert m != 0;
          assert b[1..][m - 1] == y;
        }
        if y in b[1..] {
          var k :| 1 <= k < |b| && b[k] == y;
          assert Less(b[0], y);
          LessIrreflexive(y);
          assert y in a;
          var m :| 0 <= m < |a| && a[m] == y;
          assert m != 0;
          assert a[1..][m - 1] == y;
        }
      }
      StrictlySortedUnique(a[1..], b[1..]);
      assert a == [a[0]] + a[1..] && b == [b[0]] + b[1..];
    } else {
      var w := if |a| > 0 then a[0] else if |b| > 0 then b[0] else "";
      assert w in a ==> w in b;
    }
  }

  function Insert(x: string, s: seq<string>): (r: seq<string>)
    requires Sorted(s)
    ensures Sorted(r)
    ensures multiset(r) == multiset(s) + multiset{x}
  {
    if |s| == 0 || !Less(s[0], x) then
      SortedFront(x, s);
      [x] + s
    else
      var t := Insert(x, s[1..]);
      assert s == [s[0]] + s[1..];
      SortedCons(s[0], x, s[1..], t);
      [s[0]] + t
  }

  /** An element no greater than the head of a sorted sequence can go first. */
  lemma SortedFront(x: string, s: seq<string>)
    requires Sorted(s) && (|s| == 0 || !Less(s[0], x))
    ensures Sorted([x] + s)
  {
    forall j | 0 <= j < |s| ensures !Less(s[j], x) {
      if j > 0 && Less(s[j], x) {
        LessTotal(s[0], s[j]);
        if Less(s[0], s[j]) { LessAsymmetric(s[0], s[j]); }
        LessTransitive(s[0], s[j], x);
      }
    }
  }

  /** The head of a sorted sequence stays first when `x` goes into its tail. */
  lemma SortedCons(h: string, x: string, tail: seq<string>, t: seq<string>)
    requires Sorted([h] + tail) && Less(h, x)
    requires Sorted(t) && multiset(t) == multiset(tail) + multiset{x}
    ensures Sorted([h] + t)
  {
    forall y | y in t ensures !Less(y, h) {
      assert y in multiset(t);
      if y != x {
        assert y in multiset(tail);
        var j :| 0 <= j < |tail| && tail[j] == y;
        var s := [h] + tail;
        assert s[0] == h && s[j + 1] == y;
        assert !Less(s[j + 1], s[0]);
      } else {
        LessAsymmetric(h, x);
      }
    }
  }

  /** Python `sorted(xs)` on strings: non-decreasing, and a permutation of `xs`. */
  function Sort(xs: seq<string>): (r: seq<string>)
    ensures Sorted(r)
    ensures multiset(r) == multiset(xs)
  {
    if |xs| == 0 then []
    else
      assert xs == xs[..|xs| - 1] + [xs[|xs| - 1]];
      Insert(xs[|xs| - 1], Sort(xs[..|xs| - 1]))
  }
}
