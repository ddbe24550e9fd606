/**
 * A dependency parse as the extractor sees it: a token sequence whose
 * `head` fields point into the same sequence (the root points to itself,
 * as in spaCy). The parser itself is an oracle; only its output is modelled.
 */
module DependencyParse {
  import opened Wrappers
  import opened Indices
  import opened Strings

  datatype Token = Token(
    text: string,     // token.text
    ws: string,       // token.whitespace_ (text_with_ws == text + ws)
    lower: string,    // token.lower_
    pos: string,      // token.pos_, e.g. "VERB", "PUNCT"
    dep: string,      // token.dep_, e.g. "ROOT", "nsubj"
    lemmaText: string, // token.lemma_
    head: nat,        // token.head.i
    isPunct: bool)    // token.is_punct

  /** A parse: every head index names a token of the same parse. */
  type Doc = d: seq<Token> | forall i | 0 <= i < |d| :: d[i].head < |d|

  /** The token reached from `j` by following `n` head links. */
  function Up(doc: Doc, j: nat, n: nat): (r: nat)
    requires j < |doc|
    ensures r < |doc|
    decreases n
  {
    if n == 0 then j else Up(doc, doc[j].head, n - 1)
  }

  /** `j` lies in the subtree rooted at `i`: `i` is reached from `j` in fewer
      than `|doc|` head links (a longer walk would repeat a token). */
  predicate InSubtree(doc: Doc, j: nat, i: nat)
    requires j < |doc| && i < |doc|
  {
    exists n | 0 <= n < |doc| :: Up(doc, j, n) == i
  }

  /** spaCy `token.children`: every other token whose head is `i`, in document order. */
  function Children(doc: Doc, i: nat): (r: seq<nat>)
    requires i < |doc|
    ensures forall j: nat :: j in r <==> j < |doc| && j != i && doc[j].head == i
    ensures forall k | 0 <= k < |r| :: r[k] < |doc|
    ensures Increasing(r)
  {
    Select(|doc|, (j: nat) => j < |doc| && j != i && doc[j].head == i)
  }

  /** `j` is a `pobj` child of `i`. */
  predicate PobjOf(doc: Doc, i: nat, j: nat)
    requires i < |doc|
  {
    j < |doc| && j != i && doc[j].head == i && doc[j].dep == "pobj"
  }

  /** The first `pobj` child of `i` in document order, if any. */
  function PobjChild(doc: Doc, i: nat): (r: Option<nat>)
    requires i < |doc|
    ensures r.Some? ==> r.value < |doc| && r.value in Children(doc, i) && doc[r.value].dep == "pobj"
    ensures r.Some? ==> forall c | c in Children(doc, i) && c < r.value :: doc[c].dep != "pobj"
    ensures r.None? ==> forall c | c in Children(doc, i) :: doc[c].dep != "pobj"
  {
    var p := (j: nat) => PobjOf(doc, i, j);
    assert forall j: nat :: p(j) == PobjOf(doc, i, j);
    var r := First(|doc|, p);
    assert r.Some? ==> PobjOf(doc, i, r.value);
    assert r.Some? ==> forall c | c in Children(doc, i) && c < r.value :: !PobjOf(doc, i, c);
    assert r.None? ==> forall c | c in Children(doc, i) :: !PobjOf(doc, i, c);
    r
  }

  /** spaCy `token.subtree`: `i` and all of its descendants, in document order. */
  function Subtree(doc: Doc, i: nat): (r: seq<nat>)
    requires i < |doc|
    ensures forall j: nat :: j in r <==> j < |doc| && InSubtree(doc, j, i)
    ensures forall k | 0 <= k < |r| :: r[k] < |doc|
    ensures Increasing(r)
  {
    Select(|doc|, (j: nat) => j < |doc| && InSubtree(doc, j, i))
  }

  /** A token belongs to its own subtree and so do its children. */
  lemma SubtreeHasRootAndChildren(doc: Doc, i: nat)
    requires i < |doc|
    ensures i in Subtree(doc, i)
    ensures forall j | j in Children(doc, i) :: j in Subtree(doc, i)
  {
    assert Up(doc, i, 0) == i;
    forall j | j in Children(doc, i) ensures j in Subtree(doc, i) {
      assert Up(doc, j, 1) == i;
    }
  }

  /** The texts of the listed tokens. */
  function Texts(doc: Doc, idx: seq<nat>): (r: seq<string>)
    requires forall k | 0 <= k < |idx| :: idx[k] < |doc|
    ensures |r| == |idx|
    ensures forall k | 0 <= k < |idx| :: r[k] == doc[idx[k]].text
  {
    if |idx| == 0 then [] else [doc[idx[0]].text] + Texts(doc, idx[1..])
  }

  /** The listed tokens that are not punctuation, in the same order. */
  function NonPunct(doc: Doc, idx: seq<nat>): (r: seq<nat>)
    requires forall k | 0 <= k < |idx| :: idx[k] < |doc|
    ensures forall j :: j in r <==> j in idx && !doc[j].isPunct
    ensures forall k | 0 <= k < |r| :: r[k] < |doc|
  {
    if |idx| == 0 then []
    else
      var rest := NonPunct(doc, idx[1..]);
      if doc[idx[0]].isPunct then rest else [idx[0]] + rest
  }

  /** Dropping punctuation keeps document order. */
  lemma {:induction false} NonPunctIncreasing(doc: Doc, idx: seq<nat>)
    requires forall k | 0 <= k < |idx| :: idx[k] < |doc|
    requires Increasing(idx)
    ensures Increasing(NonPunct(doc, idx))
  {
    if |idx| > 0 {
      var rest := NonPunct(doc, idx[1..]);
      NonPunctIncreasing(doc, idx[1..]);
      if !doc[idx[0]].isPunct {
        var r := [idx[0]] + rest;
        forall a, b | 0 <= a < b < |r| ensures r[a] < r[b] {
          if a == 0 {
            assert r[b] in rest;
            assert r[b] in idx[1..];
          }
        }
      }
    }
  }

  /** `" ".join([t.text for t in token.subtree if not t.is_punct])`. */
  function SubtreeText(doc: Doc, i: nat): string
    requires i < |doc|
  {
    Join(Texts(doc, NonPunct(doc, Subtree(doc, i))), " ")
  }

  /** `" ".join([t.text for t in doc if not t.is_punct])`. */
  function DocText(doc: Doc): string {
    Join(Texts(doc, NonPunct(doc, Select(|doc|, (j: nat) => j < |doc|))), " ")
  }

  // ----- transitivity of subtree membership -----

  lemma {:induction false} UpAdd(doc: Doc, j: nat, p: nat, q: nat)
    requires j < |doc|
    ensures Up(doc, j, p + q) == Up(doc, Up(doc, j, p), q)
    decreases p
  {
    if p > 0 {
      UpAdd(doc, doc[j].head, p - 1, q);
    }
  }

  /** Two positions of `f` hold the same value. */
  predicate HasDuplicate(f: seq<nat>) {
    exists a, b :: 0 <= a < b < |f| && f[a] == f[b]
  }

  /** A duplicate among the other values is a duplicate of `f`. */
  lemma DuplicateWithout(f: seq<nat>, p: nat)
    requires p < |f| && HasDuplicate(f[..p] + f[p + 1..])
    ensures HasDuplicate(f)
  {
    var g := f[..p] + f[p + 1..];
    var a, b :| 0 <= a < b < |g| && g[a] == g[b];
    var a' := if a < p then a else a + 1;
    var b' := if b < p then b else b + 1;
    assert g[a] == f[a'] && g[b] == f[b'];
    assert 0 <= a' < b' < |f| && f[a'] == f[b'];
  }

  /** When `top` occurs at `p` and nowhere twice, it occurs nowhere else. */
  lemma OnlyTop(f: seq<nat>, top: nat, p: nat, m: nat)
    requires p < |f| && m < |f| && m != p && f[p] == top
    requires !exists a, b :: 0 <= a < b < |f| && f[a] == top && f[b] == top
    ensures f[m] != top
  {
    if m < p {
      assert !(f[p] == top && f[m] == top);
    } else {
      assert !(f[p] == top && f[m] == top);
    }
  }

  /** Among more than `bound` values below `bound`, two coincide. */
  lemma {:induction false} Pigeonhole(f: seq<nat>, bound: nat)
    requires bound >= 1 && |f| > bound
    requires forall k | 0 <= k < |f| :: f[k] < bound
    ensures HasDuplicate(f)
    decreases bound
  {
    var top := bound - 1;
    if bound == 1 {
      assert 0 <= 0 < 1 < |f| && f[0] == f[1];
    } else if exists a, b :: 0 <= a < b < |f| && f[a] == top && f[b] == top {
      var a, b :| 0 <= a < b < |f| && f[a] == top && f[b] == top;
      assert f[a] == f[b];
    } else if exists p :: 0 <= p < |f| && f[p] == top {
      var p :| 0 <= p < |f| && f[p] == top;
      var g := f[..p] + f[p + 1..];
      forall k | 0 <= k < |g| ensures g[k] < top {
        var m := if k < p then k else k + 1;
        assert g[k] == f[m];
        OnlyTop(f, top, p, m);
      }
      Pigeonhole(g, top);
      DuplicateWithout(f, p);
    } else {
      assert forall k | 0 <= k < |f| :: f[k] < top;
      Pigeonhole(f, top);
    }
  }

  /** A walk of any length from `j` to `i` can be shortened below `|doc|`. */
  lemma {:induction false} Shorten(doc: Doc, j: nat, i: nat, n: nat)
    requires j < |doc| && i < |doc|
    requires Up(doc, j, n) == i
    ensures InSubtree(doc, j, i)
    decreases n
  {
    if n < |doc| {
      assert Up(doc, j, n) == i;
    } else {
      var f := seq(|doc| + 1, k requires 0 <= k <= |doc| => Up(doc, j, k));
      Pigeonhole(f, |doc|);
      var a, b :| 0 <= a < b < |f| && f[a] == f[b];
      assert Up(doc, j, a) == Up(doc, j, b);
      UpAdd(doc, j, b, n - b);
      UpAdd(doc, j, a, n - b);
      Shorten(doc, j, i, a + (n - b));
    }
  }

  /** Subtree membership is transitive. */
  lemma SubtreeTransitive(doc: Doc, k: nat, j: nat, i: nat)
    requires k < |doc| && j < |doc| && i < |doc|
    requires InSubtree(doc, k, j) && InSubtree(doc, j, i)
    ensures InSubtree(doc, k, i)
  {
    var n1 :| 0 <= n1 < |doc| && Up(doc, k, n1) == j;
    var n2 :| 0 <= n2 < |doc| && Up(doc, j, n2) == i;
    UpAdd(doc, k, n1, n2);
    Shorten(doc, k, i, n1 + n2);
  }
}
