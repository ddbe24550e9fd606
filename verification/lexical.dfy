/**
 * The WordNet-facing logic of Phase 3, with WordNet itself as an input:
 * a lexicon maps a lookup word (and an optional part of speech) to its
 * synsets, and the Wu-Palmer and word2vec scores are opaque functions.
 * Modelled here: the synonym collection, the maximum over sense pairs and
 * the enumeration of concept pairs against a strict threshold.
 */
module Lexical {
  import opened Wrappers
  import opened Strings
  import opened Phase3Records

  /** A WordNet synset: its name (such as "car.n.01") and its lemma names. */
  datatype Synset = Synset(name: string, lemmas: seq<string>)

  datatype Pos = Noun | VerbPos

  /** `wn.synsets(word)` (`None`) or `wn.synsets(word, pos=...)`. */
  type Lexicon = (string, Option<Pos>) -> seq<Synset>

  /** `concept.lower().replace(" ", "_")`: the WordNet lookup form. */
  function SenseKey(concept: string): (k: string)
    ensures |k| == |concept| && ' ' !in k
  {
    ReplaceRemoves(Lower(concept), ' ', '_');
    ReplaceChar(Lower(concept), ' ', '_')
  }

  /** Noun senses, or verb senses when there is no noun sense. */
  function ChosenSynsets(lex: Lexicon, concept: string): (ss: seq<Synset>)
    ensures |lex(SenseKey(concept), Some(Noun))| > 0 ==> ss == lex(SenseKey(concept), Some(Noun))
    ensures |lex(SenseKey(concept), Some(Noun))| == 0 ==> ss == lex(SenseKey(concept), Some(VerbPos))
  {
    var nouns := lex(SenseKey(concept), Some(Noun));
    if |nouns| > 0 then nouns else lex(SenseKey(concept), Some(VerbPos))
  }

  /** All lemma names of the synsets, synset by synset. */
  function LemmaNames(ss: seq<Synset>): (r: seq<string>)
    ensures forall n | n in r :: exists i | 0 <= i < |ss| :: n in ss[i].lemmas
    ensures forall i, n | 0 <= i < |ss| && n in ss[i].lemmas :: n in r
  {
    if |ss| == 0 then []
    else
      var init := ss[..|ss| - 1];
      var r := LemmaNames(init);
      assert forall i | 0 <= i < |init| :: init[i] == ss[i];
      r + ss[|ss| - 1].lemmas
  }

  /** `lemma.name().replace('_', ' ')`. */
  function Spaced(name: string): (r: string)
    ensures '_' !in r
  {
    ReplaceRemoves(name, '_', ' ');
    ReplaceChar(name, '_', ' ')
  }

  /** The lower-cased forms of the entries. */
  function Folded(acc: seq<string>): (r: seq<string>)
    ensures |r| == |acc| && forall i | 0 <= i < |acc| :: r[i] == Lower(acc[i])
  {
    seq(|acc|, i requires 0 <= i < |acc| => Lower(acc[i]))
  }

  /** The synonym list invariant: no entry is the concept or a case variant
      of another entry, and no entry holds an underscore. */
  predicate Clean(acc: seq<string>, concept: string) {
    Distinct(Folded(acc)) && Lower(concept) !in Folded(acc) && forall s | s in acc :: '_' !in s
  }

  /** One lemma name offered to the list: kept unless a case variant of it,
      or the concept itself, is already there. */
  function Offer(acc: seq<string>, concept: string, name: string): seq<string> {
    var n := Spaced(name);
    if Lower(n) !in Folded(acc) && Lower(n) != Lower(concept) then acc + [n] else acc
  }

  /** The `_generate_synonyms` inner loops for one concept: every lemma name
      offered in turn to an initially empty list. */
  function Synonyms(concept: string, names: seq<string>): (r: seq<string>)
    ensures Clean(r, concept)
  {
    if |names| == 0 then []
    else
      var acc := Synonyms(concept, names[..|names| - 1]);
      OfferClean(acc, concept, names[|names| - 1]);
      Offer(acc, concept, names[|names| - 1])
  }

  lemma OfferClean(acc: seq<string>, concept: string, name: string)
    requires Clean(acc, concept)
    ensures Clean(Offer(acc, concept, name), concept)
  {
    var n := Spaced(name);
    var r := Offer(acc, concept, name);
    if r != acc {
      assert Folded(r) == Folded(acc) + [Lower(n)];
    }
  }

  /** Every entry is a spaced lemma name. */
  lemma {:induction false} SynonymsSound(concept: string, names: seq<string>)
    ensures forall s | s in Synonyms(concept, names) :: exists n | n in names :: s == Spaced(n)
    decreases |names|
  {
    if |names| > 0 {
      var init := names[..|names| - 1];
      SynonymsSound(concept, init);
      assert forall n | n in init :: n in names;
    }
  }

  /** Every lemma name is represented, up to case, unless it is the concept. */
  lemma {:induction false} SynonymsComplete(concept: string, names: seq<string>)
    ensures forall n | n in names :: Lower(Spaced(n)) == Lower(concept) || Lower(Spaced(n)) in Folded(Synonyms(concept, names))
    decreases |names|
  {
    if |names| > 0 {
      var init := names[..|names| - 1];
      var acc := Synonyms(concept, init);
      var r := Synonyms(concept, names);
      SynonymsComplete(concept, init);
      assert acc <= r;
      assert forall x | x in Folded(acc) :: x in Folded(r) by {
        forall x | x in Folded(acc) ensures x in Folded(r) {
          var i :| 0 <= i < |acc| && Folded(acc)[i] == x;
          assert Folded(r)[i] == x;
        }
      }
      assert forall n | n in names :: n in init || n == names[|names| - 1];
      var last := Spaced(names[|names| - 1]);
      if r != acc {
        assert Folded(r)[|acc|] == Lower(last);
      }
    }
  }

  /** The synonyms of one concept: the spaced lemma names of its chosen
      synsets, first spelling of each case-insensitive form, without the
      concept itself. */
  function SynonymsOf(lex: Lexicon, concept: string): (r: seq<string>)
    ensures Clean(r, concept)
  {
    Synonyms(concept, LemmaNames(ChosenSynsets(lex, concept)))
  }

  /** `dict(self.synonyms)`: a concept is a key exactly when its chosen
      synsets have some lemma (the `defaultdict` entry is created by the
      membership test even when every lemma is then rejected). */
  function SynonymMap(lex: Lexicon, concepts: seq<string>): (m: map<string, seq<string>>)
    ensures forall c :: c in m <==> c in concepts && |LemmaNames(ChosenSynsets(lex, c))| > 0
    ensures forall c | c in m :: m[c] == SynonymsOf(lex, c)
  {
    map c | c in concepts && |LemmaNames(ChosenSynsets(lex, c))| > 0 :: SynonymsOf(lex, c)
  }

  // ----- Wu-Palmer -----

  /** The best score of `s1` against `ss2`, starting from `acc`. */
  function MaxAgainst(s1: Synset, ss2: seq<Synset>, wup: (Synset, Synset) -> Option<real>, acc: real): (r: real)
    ensures r >= acc
    ensures forall j | 0 <= j < |ss2| && wup(s1, ss2[j]).Some? :: wup(s1, ss2[j]).value <= r
    ensures r == acc || exists j | 0 <= j < |ss2| :: wup(s1, ss2[j]) == Some(r)
    decreases |ss2|
  {
    if |ss2| == 0 then acc
    else
      var w := wup(s1, ss2[0]);
      var acc' := if w.Some? && w.value > acc then w.value else acc;
      var r := MaxAgainst(s1, ss2[1..], wup, acc');
      assert forall j | 1 <= j < |ss2| :: ss2[j] == ss2[1..][j - 1];
      assert r != acc' ==> exists j | 0 <= j < |ss2| :: wup(s1, ss2[j]) == Some(r) by {
        if r != acc' {
          var j :| 0 <= j < |ss2[1..]| && wup(s1, ss2[1..][j]) == Some(r);
          assert ss2[j + 1] == ss2[1..][j];
        }
      }
      r
  }

  function MaxAll(ss1: seq<Synset>, ss2: seq<Synset>, wup: (Synset, Synset) -> Option<real>, acc: real): (r: real)
    ensures r >= acc
    ensures forall i, j | 0 <= i < |ss1| && 0 <= j < |ss2| && wup(ss1[i], ss2[j]).Some? :: wup(ss1[i], ss2[j]).value <= r
    ensures r == acc || exists i, j | 0 <= i < |ss1| && 0 <= j < |ss2| :: wup(ss1[i], ss2[j]) == Some(r)
    decreases |ss1|
  {
    if |ss1| == 0 then acc
    else
      var acc' := MaxAgainst(ss1[0], ss2, wup, acc);
      var r := MaxAll(ss1[1..], ss2, wup, acc');
      MaxAllStep(ss1, ss2, wup, acc, acc', r);
      r
  }

  /** The best score over `ss1` combines the best for its first synset with
      the best for the rest. */
  lemma MaxAllStep(ss1: seq<Synset>, ss2: seq<Synset>, wup: (Synset, Synset) -> Option<real>,
                   acc: real, acc': real, r: real)
    requires |ss1| > 0
    requires acc' >= acc
    requires forall j | 0 <= j < |ss2| && wup(ss1[0], ss2[j]).Some? :: wup(ss1[0], ss2[j]).value <= acc'
    requires acc' == acc || exists j | 0 <= j < |ss2| :: wup(ss1[0], ss2[j]) == Some(acc')
    requires r >= acc'
    requires forall i, j | 0 <= i < |ss1[1..]| && 0 <= j < |ss2| && wup(ss1[1..][i], ss2[j]).Some? ::
               wup(ss1[1..][i], ss2[j]).value <= r
    requires r == acc' || exists i, j | 0 <= i < |ss1[1..]| && 0 <= j < |ss2| :: wup(ss1[1..][i], ss2[j]) == Some(r)
    ensures r >= acc
    ensures forall i, j | 0 <= i < |ss1| && 0 <= j < |ss2| && wup(ss1[i], ss2[j]).Some? :: wup(ss1[i], ss2[j]).value <= r
    ensures r == acc || exists i, j | 0 <= i < |ss1| && 0 <= j < |ss2| :: wup(ss1[i], ss2[j]) == Some(r)
  {
    var rest := ss1[1..];
    forall i, j | 0 <= i < |ss1| && 0 <= j < |ss2| && wup(ss1[i], ss2[j]).Some?
      ensures wup(ss1[i], ss2[j]).value <= r
    {
      if i > 0 { assert ss1[i] == rest[i - 1]; }
    }
    if r != acc {
      if r == acc' {
        var j :| 0 <= j < |ss2| && wup(ss1[0], ss2[j]) == Some(r);
      } else {
        var i, j :| 0 <= i < |rest| && 0 <= j < |ss2| && wup(rest[i], ss2[j]) == Some(r);
        assert ss1[i + 1] == rest[i];
      }
    }
  }

  /** `_compute_similarity`: no score when either side has no synset; else
      the best sense-pair score, and never below 0. */
  function WuPalmer(ss1: seq<Synset>, ss2: seq<Synset>, wup: (Synset, Synset) -> Option<real>): (r: Option<real>)
    ensures r.None? <==> |ss1| == 0 || |ss2| == 0
    ensures r.Some? ==> r.value >= 0.0
    ensures r.Some? ==> forall i, j | 0 <= i < |ss1| && 0 <= j < |ss2| && wup(ss1[i], ss2[j]).Some? ::
                          wup(ss1[i], ss2[j]).value <= r.value
    ensures r.Some? ==> r.value == 0.0 || exists i, j | 0 <= i < |ss1| && 0 <= j < |ss2| :: wup(ss1[i], ss2[j]) == Some(r.value)
  {
    if |ss1| == 0 || |ss2| == 0 then None else Some(MaxAll(ss1, ss2, wup, 0.0))
  }

  /** The Wu-Palmer score of two concepts under all parts of speech. */
  function ConceptScore(lex: Lexicon, wup: (Synset, Synset) -> Option<real>, a: string, b: string): Option<real> {
    WuPalmer(lex(SenseKey(a), None), lex(SenseKey(b), None), wup)
  }

  // ----- pairs -----

  /** `x` paired with each of `ys`, in order. */
  function Fan(x: string, ys: seq<string>): (r: seq<(string, string)>)
    ensures |r| == |ys| && forall k | 0 <= k < |ys| :: r[k] == (x, ys[k])
  {
    seq(|ys|, k requires 0 <= k < |ys| => (x, ys[k]))
  }

  /** `itertools.combinations(xs, 2)`, which is also the order of the
      `for i ... for j ... if i < j` loops. */
  function PairsOf(xs: seq<string>): seq<(string, string)> {
    if |xs| == 0 then [] else Fan(xs[0], xs[1..]) + PairsOf(xs[1..])
  }

  /** Every pair is `(xs[i], xs[j])` for some `i < j`, and every such pair
      occurs. */
  lemma PairsMembers(xs: seq<string>)
    ensures forall p | p in PairsOf(xs) :: exists i, j | 0 <= i < j < |xs| :: p == (xs[i], xs[j])
    ensures forall i, j | 0 <= i < j < |xs| :: (xs[i], xs[j]) in PairsOf(xs)
  {
    PairsSound(xs);
    PairsComplete(xs);
  }

  lemma {:induction false} PairsSound(xs: seq<string>)
    ensures forall p | p in PairsOf(xs) :: exists i, j | 0 <= i < j < |xs| :: p == (xs[i], xs[j])
    decreases |xs|
  {
    if |xs| > 0 {
      var tail := xs[1..];
      var first := Fan(xs[0], tail);
      var rest := PairsOf(tail);
      assert PairsOf(xs) == first + rest;
      PairsSound(tail);
      forall p | p in PairsOf(xs) ensures exists i, j | 0 <= i < j < |xs| :: p == (xs[i], xs[j]) {
        if p in first {
          var k :| 0 <= k < |first| && first[k] == p;
          assert p == (xs[0], xs[k + 1]);
        } else {
          assert p in rest;
          var i, j :| 0 <= i < j < |tail| && p == (tail[i], tail[j]);
          assert p == (xs[i + 1], xs[j + 1]);
        }
      }
    }
  }

  lemma {:induction false} PairsComplete(xs: seq<string>)
    ensures forall i, j | 0 <= i < j < |xs| :: (xs[i], xs[j]) in PairsOf(xs)
    decreases |xs|
  {
    if |xs| > 0 {
      var tail := xs[1..];
      var first := Fan(xs[0], tail);
      var rest := PairsOf(tail);
      assert PairsOf(xs) == first + rest;
      PairsComplete(tail);
      forall i, j | 0 <= i < j < |xs| ensures (xs[i], xs[j]) in PairsOf(xs) {
        if i == 0 {
          assert first[j - 1] == (xs[i], xs[j]);
        } else {
          assert tail[i - 1] == xs[i] && tail[j - 1] == xs[j];
          assert (tail[i - 1], tail[j - 1]) in rest;
        }
      }
    }
  }

  /** n concepts give n(n-1)/2 pairs. */
  lemma {:induction false} PairsCount(xs: seq<string>)
    ensures 2 * |PairsOf(xs)| == |xs| * (|xs| - 1)
    decreases |xs|
  {
    if |xs| > 0 {
      PairsCount(xs[1..]);
      var n := |xs|;
      assert 2 * |PairsOf(xs)| == 2 * (n - 1) + (n - 1) * (n - 2);
      assert 2 * (n - 1) + (n - 1) * (n - 2) == (n - 1) * n;
    }
  }

  /** A word outside the list occurs in none of its pairs. */
  lemma {:induction false} PairsAvoid(xs: seq<string>, x: string)
    requires x !in xs
    ensures forall p | p in PairsOf(xs) :: p.0 != x && p.1 != x
    decreases |xs|
  {
    if |xs| > 0 {
      var tail := xs[1..];
      assert x !in tail;
      PairsAvoid(tail, x);
      var first := Fan(xs[0], tail);
      forall p | p in first ensures p.0 != x && p.1 != x {
        var k :| 0 <= k < |first| && first[k] == p;
        assert p == (xs[0], tail[k]);
      }
    }
  }

  /** The tail of a list without repetitions has none, and lacks the head. */
  lemma DistinctTail(xs: seq<string>)
    requires |xs| > 0 && Distinct(xs)
    ensures Distinct(xs[1..]) && xs[0] !in xs[1..]
  {
    var tail := xs[1..];
    forall a, b | 0 <= a < b < |tail| ensures tail[a] != tail[b] {
      assert tail[a] == xs[a + 1] && tail[b] == xs[b + 1];
    }
    forall k | 0 <= k < |tail| ensures tail[k] != xs[0] {
      assert tail[k] == xs[k + 1];
    }
  }

  /** Over distinct concepts a pair never joins a concept with itself. */
  lemma {:induction false} PairsNoSelf(xs: seq<string>)
    requires Distinct(xs)
    ensures forall p | p in PairsOf(xs) :: p.0 != p.1
    decreases |xs|
  {
    if |xs| > 0 {
      var tail := xs[1..];
      DistinctTail(xs);
      PairsNoSelf(tail);
      var first := Fan(xs[0], tail);
      forall p | p in first ensures p.0 != p.1 {
        var k :| 0 <= k < |first| && first[k] == p;
        assert p == (xs[0], tail[k]);
      }
    }
  }

  /** Over distinct concepts no unordered pair occurs twice, in either
      orientation. */
  lemma {:induction false} PairsOnce(xs: seq<string>)
    requires Distinct(xs)
    ensures forall a, b | 0 <= a < b < |PairsOf(xs)| ::
              PairsOf(xs)[a] != PairsOf(xs)[b] && PairsOf(xs)[a] != (PairsOf(xs)[b].1, PairsOf(xs)[b].0)
    decreases |xs|
  {
    if |xs| > 0 {
      var tail := xs[1..];
      var first := Fan(xs[0], tail);
      var rest := PairsOf(tail);
      var r := PairsOf(xs);
      assert r == first + rest;
      DistinctTail(xs);
      PairsOnce(tail);
      PairsAvoid(tail, xs[0]);
      forall a, b | 0 <= a < b < |r| ensures r[a] != r[b] && r[a] != (r[b].1, r[b].0) {
        if b < |first| {
          assert r[a] == (xs[0], tail[a]) && r[b] == (xs[0], tail[b]);
          assert tail[a] != tail[b] && tail[b] != xs[0];
        } else if a < |first| {
          assert r[a] == (xs[0], tail[a]);
          assert r[b] in rest;
        } else {
          var a', b' := a - |first|, b - |first|;
          assert r[a] == rest[a'] && r[b] == rest[b'];
        }
      }
    }
  }

  /** One similarity found between two concepts. */
  datatype Similarity = Similarity(concept1: string, concept2: string, score: real, how: string)

  const WuPalmerThreshold: real := 0.5
  const Word2VecThreshold: real := 0.6

  /** The entry for one pair when its score is present and strictly above
      the threshold. */
  function Scored(p: (string, string), score: Option<real>, threshold: real, how: string): (r: seq<Similarity>)
    ensures |r| <= 1
    ensures |r| == 1 <==> score.Some? && score.value > threshold
    ensures |r| == 1 ==> r[0] == Similarity(p.0, p.1, score.value, how)
  {
    if score.Some? && score.value > threshold then [Similarity(p.0, p.1, score.value, how)] else []
  }

  /** phase3.py `_calculate_similarity`: the Wu-Palmer pairs above 0.5. */
  function WuPalmerPairs(ps: seq<(string, string)>, score: (string, string) -> Option<real>): (r: seq<Similarity>)
    ensures forall s | s in r :: s.how == "Wu-Palmer" && s.score > WuPalmerThreshold
                               && (s.concept1, s.concept2) in ps && score(s.concept1, s.concept2) == Some(s.score)
    ensures forall p | p in ps && score(p.0, p.1).Some? && score(p.0, p.1).value > WuPalmerThreshold ::
              Similarity(p.0, p.1, score(p.0, p.1).value, "Wu-Palmer") in r
  {
    if |ps| == 0 then []
    else
      var r := WuPalmerPairs(ps[..|ps| - 1], score);
      var p := ps[|ps| - 1];
      assert forall q | q in ps :: q in ps[..|ps| - 1] || q == p;
      r + Scored(p, score(p.0, p.1), WuPalmerThreshold, "Wu-Palmer")
  }

  /** analyzeUserStory/phase3.py `_calculate_similarity`: for each pair the
      Wu-Palmer entry above 0.5, then (with word2vec installed) the word2vec
      entry above 0.6. */
  function BothPairs(ps: seq<(string, string)>, wup: (string, string) -> Option<real>,
                     w2v: Option<(string, string) -> Option<real>>): (r: seq<Similarity>)
    ensures forall s | s in r :: (s.concept1, s.concept2) in ps
    ensures forall s | s in r && s.how == "Wu-Palmer" :: s.score > WuPalmerThreshold && wup(s.concept1, s.concept2) == Some(s.score)
    ensures forall s | s in r && s.how != "Wu-Palmer" ::
              s.how == "word2vec" && s.score > Word2VecThreshold && w2v.Some? && w2v.value(s.concept1, s.concept2) == Some(s.score)
    ensures w2v.None? ==> r == WuPalmerPairs(ps, wup)
  {
    if |ps| == 0 then []
    else
      var r := BothPairs(ps[..|ps| - 1], wup, w2v);
      var p := ps[|ps| - 1];
      assert forall q | q in ps[..|ps| - 1] :: q in ps;
      r + Scored(p, wup(p.0, p.1), WuPalmerThreshold, "Wu-Palmer")
        + (if w2v.Some? then Scored(p, w2v.value(p.0, p.1), Word2VecThreshold, "word2vec") else [])
  }

  /** Every pair above a method's threshold is reported by that method. */
  lemma {:induction false} BothPairsComplete(ps: seq<(string, string)>, wup: (string, string) -> Option<real>,
                                             w2v: Option<(string, string) -> Option<real>>)
    ensures forall p | p in ps && wup(p.0, p.1).Some? && wup(p.0, p.1).value > WuPalmerThreshold ::
              Similarity(p.0, p.1, wup(p.0, p.1).value, "Wu-Palmer") in BothPairs(ps, wup, w2v)
    ensures w2v.Some? ==> forall p | p in ps && w2v.value(p.0, p.1).Some? && w2v.value(p.0, p.1).value > Word2VecThreshold ::
              Similarity(p.0, p.1, w2v.value(p.0, p.1).value, "word2vec") in BothPairs(ps, wup, w2v)
    decreases |ps|
  {
    if |ps| > 0 {
      var init := ps[..|ps| - 1];
      var p := ps[|ps| - 1];
      BothPairsComplete(init, wup, w2v);
      var r := BothPairs(init, wup, w2v);
      var w := Scored(p, wup(p.0, p.1), WuPalmerThreshold, "Wu-Palmer");
      var v := if w2v.Some? then Scored(p, w2v.value(p.0, p.1), Word2VecThreshold, "word2vec") else [];
      assert BothPairs(ps, wup, w2v) == r + w + v;
      assert forall q | q in ps :: q in init || q == p;
    }
  }

  /** A pair can be reported twice, once per method. */
  lemma BothMethodsReported(a: string, b: string, wup: (string, string) -> Option<real>, w2v: (string, string) -> Option<real>)
    requires wup(a, b).Some? && wup(a, b).value > WuPalmerThreshold
    requires w2v(a, b).Some? && w2v(a, b).value > Word2VecThreshold
    ensures BothPairs([(a, b)], wup, Some(w2v))
            == [Similarity(a, b, wup(a, b).value, "Wu-Palmer"), Similarity(a, b, w2v(a, b).value, "word2vec")]
  {
    assert [(a, b)][..0] == [];
  }
}
