/**
 * Index sequences: positions selected in order, ranges, and "the first
 * position satisfying p" — the shapes Python's `for ... if ...: break` and
 * list comprehensions over positions take.
 */
module Indices {
  import opened Wrappers

  /** Strictly increasing indices: document order without repetition. */
  predicate Increasing(s: seq<nat>) {
    forall a, b | 0 <= a < b < |s| :: s[a] < s[b]
  }

  /** The indices below `n` that satisfy `keep`, in increasing (document) order. */
  function Select(n: nat, keep: nat -> bool): (r: seq<nat>)
    ensures forall j: nat :: j in r <==> j < n && keep(j)
    ensures forall k | 0 <= k < |r| :: r[k] < n
    ensures Increasing(r)
  {
    if n == 0 then []
    else
      var r := Select(n - 1, keep);
      r + (if keep(n - 1) then [n - 1] else [])
  }

  /** `for i, x in enumerate(xs): x["indices"] = i + 1`: the element at
      position `k` gets the index `k + 1` through `withIndex`. */
  function Numbered<R>(xs: seq<R>, withIndex: (R, nat) -> R): (r: seq<R>)
    ensures |r| == |xs|
    ensures forall k | 0 <= k < |xs| :: r[k] == withIndex(xs[k], k + 1)
  {
    seq(|xs|, k requires 0 <= k < |xs| => withIndex(xs[k], k + 1))
  }

  /** The indices `a`, `a + 1`, ..., `b - 1`. */
  function Range(a: nat, b: nat): (r: seq<nat>)
    requires a <= b
    ensures |r| == b - a
    ensures forall k | 0 <= k < |r| :: r[k] == a + k
  {
    seq(b - a, k requires 0 <= k < b - a => a + k)
  }

  /** `i` is the first index below `n` satisfying `p`. */
  predicate IsFirst(n: nat, p: nat -> bool, i: nat) {
    i < n && p(i) && forall m | 0 <= m < i :: !p(m)
  }

  function FirstFrom(n: nat, p: nat -> bool, from: nat): (r: Option<nat>)
    requires from <= n
    ensures r.Some? ==> from <= r.value < n && p(r.value)
    ensures r.Some? ==> forall m | from <= m < r.value :: !p(m)
    ensures r.None? ==> forall m | from <= m < n :: !p(m)
    decreases n - from
  {
    if from == n then None else if p(from) then Some(from) else FirstFrom(n, p, from + 1)
  }

  /** The first index below `n` satisfying `p`: Python's `for ...: if p: break`. */
  function First(n: nat, p: nat -> bool): (r: Option<nat>)
    ensures r.Some? ==> IsFirst(n, p, r.value)
    ensures r.None? ==> forall m | 0 <= m < n :: !p(m)
  {
    FirstFrom(n, p, 0)
  }

  /** The first element of the increasing sequence `s` satisfying `p`:
      Python's `for c in children: if p(c): ... break`. */
  function FirstIn(s: seq<nat>, p: nat -> bool): (r: Option<nat>)
    requires Increasing(s)
    ensures r.Some? ==> r.value in s && p(r.value)
    ensures r.Some? ==> forall c | c in s && c < r.value :: !p(c)
    ensures r.None? ==> forall c | c in s :: !p(c)
  {
    if |s| == 0 then None
    else if p(s[0]) then
      assert forall k | 0 <= k < |s| :: s[0] <= s[k];
      Some(s[0])
    else
      assert forall c | c in s :: c == s[0] || c in s[1..];
      FirstIn(s[1..], p)
  }

  /** An increasing sequence holding exactly the indices below `n` is `0..n`. */
  lemma {:induction false} IncreasingAll(r: seq<nat>, n: nat)
    requires Increasing(r)
    requires forall j: nat :: j in r <==> j < n
    ensures r == Range(0, n)
  {
    forall k | 0 <= k < |r| ensures r[k] == k {
      IncreasingIdentity(r, n, k);
    }
    if |r| > 0 {
      assert r[|r| - 1] in r;
    }
    if n > 0 {
      assert n - 1 in r;
      var m :| 0 <= m < |r| && r[m] == n - 1;
      assert r[m] == m;
    }
  }

  lemma {:induction false} IncreasingIdentity(r: seq<nat>, n: nat, k: nat)
    requires Increasing(r)
    requires forall j: nat :: j in r <==> j < n
    requires k < |r|
    ensures r[k] == k
    decreases k
  {
    forall m | 0 <= m < k ensures r[m] == m {
      IncreasingIdentity(r, n, m);
    }
    IncreasingFloor(r, k);
    assert r[k] in r;
    assert k in r;
    var m :| 0 <= m < |r| && r[m] == k;
    assert m == k;
  }

  lemma {:induction false} IncreasingFloor(r: seq<nat>, k: nat)
    requires Increasing(r) && k < |r|
    ensures r[k] >= k
  {
    if k > 0 {
      IncreasingFloor(r, k - 1);
      assert r[k - 1] < r[k];
    }
  }

  /** Two increasing sequences with the same elements are equal. */
  lemma {:induction false} IncreasingUnique(a: seq<nat>, b: seq<nat>)
    requires Increasing(a) && Increasing(b)
    requires forall j: nat :: j in a <==> j in b
    ensures a == b
    decreases |a| + |b|
  {
    if |a| > 0 {
      assert a[0] in b;
    }
    if |b| > 0 {
      assert b[0] in a;
    }
    if |a| > 0 {
      var p :| 0 <= p < |b| && b[p] == a[0];
      var q :| 0 <= q < |a| && a[q] == b[0];
      assert a[0] <= a[q];
      assert b[0] <= b[p];
      assert a[0] == b[0];
      forall j: nat ensures j in a[1..] <==> j in b[1..] {
        if j in a[1..] {
          var m :| 1 <= m < |a| && a[m] == j;
          assert j in b;
          assert j != b[0];
        }
        if j in b[1..] {
          var m :| 1 <= m < |b| && b[m] == j;
          assert j in a;
          assert j != a[0];
        }
      }
      IncreasingUnique(a[1..], b[1..]);
    }
  }
}
