/**
 * services/phase3: the concept list, canonical synonyms, the pairs of
 * canonical concepts, the cluster labels carried onto the pairs, and the
 * two helpers (synonym records, the SVO filter). Similarity, clustering,
 * cluster labelling and the exclusion filter are inputs.
 */
module ServicesPhase3 {
  import opened Wrappers
  import opened Strings
  import opened Sorting
  import opened Indices
  import opened Lexical

  // ----- concept texts -----

  /** What survives of one stored concept text: stripped, non-empty, and
      not rejected by the exclusion filter (which may also rewrite it). */
  function Survivor(raw: Option<string>, exclude: string -> Option<string>): Option<string> {
    var t := Strip(if raw.Some? then raw.value else "");
    if t == "" then None
    else if Truthy(exclude(t)) then exclude(t)
    else None
  }

  /** The present values, in order. */
  function Present<T(!new)>(xs: seq<Option<T>>): (r: seq<T>)
    ensures forall t :: t in r <==> exists i | 0 <= i < |xs| :: xs[i] == Some(t)
  {
    if |xs| == 0 then []
    else
      var init := xs[..|xs| - 1];
      assert forall i | 0 <= i < |init| :: init[i] == xs[i];
      Present(init) + (if xs[|xs| - 1].Some? then [xs[|xs| - 1].value] else [])
  }

  function Survivors(raws: seq<Option<string>>, exclude: string -> Option<string>): (r: seq<string>)
    ensures forall t :: t in r <==> exists i | 0 <= i < |raws| :: Survivor(raws[i], exclude) == Some(t)
  {
    var xs := seq(|raws|, i requires 0 <= i < |raws| => Survivor(raws[i], exclude));
    var r := Present(xs);
    forall t ensures t in r <==> exists i | 0 <= i < |raws| :: Survivor(raws[i], exclude) == Some(t) {
      if t in r {
        var i :| 0 <= i < |xs| && xs[i] == Some(t);
        assert Survivor(raws[i], exclude) == Some(t);
      }
      if exists i | 0 <= i < |raws| :: Survivor(raws[i], exclude) == Some(t) {
        var i :| 0 <= i < |raws| && Survivor(raws[i], exclude) == Some(t);
        assert xs[i] == Some(t);
      }
    }
    r
  }

  /** `sorted(set(concept_texts))`: the surviving texts, sorted, once each. */
  function ConceptTexts(raws: seq<Option<string>>, exclude: string -> Option<string>): (r: seq<string>)
    ensures StrictlySorted(r)
    ensures forall t :: t in r <==> exists i | 0 <= i < |raws| :: Survivor(raws[i], exclude) == Some(t)
  {
    SortedSet(Survivors(raws, exclude))
  }

  // ----- canonical synonyms -----

  /** `get_canonical_synonym`: the first lemma of the first synset, spaced and
      lower-cased; the lower-cased word when there is no synset or the first
      synset has no lemma (the `IndexError` path). */
  function Canonical(word: string, synsets: string -> seq<Synset>): (r: string)
    ensures |synsets(word)| == 0 || |synsets(word)[0].lemmas| == 0 ==> r == Lower(word)
    ensures |synsets(word)| > 0 && |synsets(word)[0].lemmas| > 0 ==> r == Lower(Spaced(synsets(word)[0].lemmas[0]))
    ensures Lower(r) == r
  {
    var ss := synsets(word);
    if |ss| == 0 || |ss[0].lemmas| == 0 then
      LowerIdempotent(word);
      Lower(word)
    else
      LowerIdempotent(Spaced(ss[0].lemmas[0]));
      Lower(Spaced(ss[0].lemmas[0]))
  }

  function CanonicalAll(texts: seq<string>, synsets: string -> seq<Synset>): (r: seq<string>)
    ensures |r| == |texts| && forall i | 0 <= i < |texts| :: r[i] == Canonical(texts[i], synsets)
  {
    seq(|texts|, i requires 0 <= i < |texts| => Canonical(texts[i], synsets))
  }

  /** `dict(zip(concept_texts, normalized_concepts))`. */
  function CanonicalMap(texts: seq<string>, synsets: string -> seq<Synset>): (m: map<string, string>)
    ensures forall t :: t in m <==> t in texts
    ensures forall t | t in m :: m[t] == Canonical(t, synsets)
  {
    map t | t in texts :: Canonical(t, synsets)
  }

  /** The canonical concepts: sorted, once each, all lower-case. */
  function Canonicals(texts: seq<string>, synsets: string -> seq<Synset>): (r: seq<string>)
    ensures StrictlySorted(r)
    ensures forall c :: c in r <==> exists i | 0 <= i < |texts| :: Canonical(texts[i], synsets) == c
    ensures forall c | c in r :: Lower(c) == c
  {
    var all := CanonicalAll(texts, synsets);
    assert forall c | c in all :: exists i | 0 <= i < |texts| :: Canonical(texts[i], synsets) == c;
    assert forall i | 0 <= i < |texts| :: all[i] in all;
    SortedSet(all)
  }

  // ----- pairs -----

  /** One entry of `pairs`. */
  datatype Pair = Pair(a: string, b: string, similarity: real, kind: string)

  /** `combinations(concept_texts, 2)`, each scored, all of type "object". */
  function ScoredPairs(concepts: seq<string>, similarity: (string, string) -> real): (r: seq<Pair>)
    ensures |r| == |PairsOf(concepts)|
    ensures forall k | 0 <= k < |r| ::
              r[k] == Pair(PairsOf(concepts)[k].0, PairsOf(concepts)[k].1,
                           similarity(PairsOf(concepts)[k].0, PairsOf(concepts)[k].1), "object")
  {
    var ps := PairsOf(concepts);
    seq(|ps|, k requires 0 <= k < |ps| => Pair(ps[k].0, ps[k].1, similarity(ps[k].0, ps[k].1), "object"))
  }

  /** Over a sorted concept list every pair is ordered `a < b`, so there is
      no self-pair, and every such ordered pair of concepts occurs. */
  lemma ScoredPairsOrdered(concepts: seq<string>, similarity: (string, string) -> real)
    requires StrictlySorted(concepts)
    ensures forall p | p in ScoredPairs(concepts, similarity) :: Less(p.a, p.b) && p.a in concepts && p.b in concepts
    ensures forall i, j | 0 <= i < j < |concepts| ::
              Pair(concepts[i], concepts[j], similarity(concepts[i], concepts[j]), "object") in ScoredPairs(concepts, similarity)
  {
    ScoredPairsSound(concepts, similarity);
    ScoredPairsComplete(concepts, similarity);
  }

  lemma ScoredPairsSound(concepts: seq<string>, similarity: (string, string) -> real)
    requires StrictlySorted(concepts)
    ensures forall p | p in ScoredPairs(concepts, similarity) :: Less(p.a, p.b) && p.a in concepts && p.b in concepts
  {
    var r := ScoredPairs(concepts, similarity);
    var ps := PairsOf(concepts);
    PairsSound(concepts);
    forall p | p in r ensures Less(p.a, p.b) && p.a in concepts && p.b in concepts {
      var k :| 0 <= k < |r| && r[k] == p;
      assert ps[k] in ps;
      var i, j :| 0 <= i < j < |concepts| && ps[k] == (concepts[i], concepts[j]);
    }
  }

  lemma ScoredPairsComplete(concepts: seq<string>, similarity: (string, string) -> real)
    ensures forall i, j | 0 <= i < j < |concepts| ::
              Pair(concepts[i], concepts[j], similarity(concepts[i], concepts[j]), "object") in ScoredPairs(concepts, similarity)
  {
    var r := ScoredPairs(concepts, similarity);
    var ps := PairsOf(concepts);
    PairsComplete(concepts);
    forall i, j | 0 <= i < j < |concepts|
      ensures Pair(concepts[i], concepts[j], similarity(concepts[i], concepts[j]), "object") in r
    {
      assert (concepts[i], concepts[j]) in ps;
      var k :| 0 <= k < |ps| && ps[k] == (concepts[i], concepts[j]);
      assert r[k] == Pair(concepts[i], concepts[j], similarity(concepts[i], concepts[j]), "object");
    }
  }

  // ----- cluster labels -----

  /** The `concept_label` loop: each member of each cluster gets that
      cluster's label; a member of several clusters keeps the last one. */
  function ConceptLabels(clusters: seq<seq<string>>, labeller: seq<string> -> Option<string>): (m: map<string, Option<string>>)
    ensures forall x :: x in m <==> exists g | 0 <= g < |clusters| :: x in clusters[g]
  {
    if |clusters| == 0 then map[]
    else
      var init := clusters[..|clusters| - 1];
      var grp := clusters[|clusters| - 1];
      var m := ConceptLabels(init, labeller);
      assert forall g | 0 <= g < |init| :: init[g] == clusters[g];
      m + map x | x in grp :: labeller(grp)
  }

  /** Reference definition: the label of the last cluster holding `x`. */
  function LastLabel(clusters: seq<seq<string>>, labeller: seq<string> -> Option<string>, x: string): Option<Option<string>> {
    if |clusters| == 0 then None
    else if x in clusters[|clusters| - 1] then Some(labeller(clusters[|clusters| - 1]))
    else LastLabel(clusters[..|clusters| - 1], labeller, x)
  }

  /** Each member is mapped to the label of the last cluster holding it. */
  lemma {:induction false} ConceptLabelsLast(clusters: seq<seq<string>>, labeller: seq<string> -> Option<string>, x: string)
    ensures x in ConceptLabels(clusters, labeller) <==> LastLabel(clusters, labeller, x).Some?
    ensures x in ConceptLabels(clusters, labeller) ==> ConceptLabels(clusters, labeller)[x] == LastLabel(clusters, labeller, x).value
    decreases |clusters|
  {
    if |clusters| > 0 {
      ConceptLabelsLast(clusters[..|clusters| - 1], labeller, x);
    }
  }

  /** `concept_label.get(x)`: `None` for a concept in no cluster. */
  function LabelOf(labels: map<string, Option<string>>, x: string): Option<string> {
    if x in labels then labels[x] else None
  }

  /** `concept_label.get(a) or concept_label.get(b)`. */
  function PairLabel(labels: map<string, Option<string>>, a: string, b: string): (r: Option<string>)
    ensures Truthy(LabelOf(labels, a)) ==> r == LabelOf(labels, a)
    ensures !Truthy(LabelOf(labels, a)) ==> r == LabelOf(labels, b)
  {
    Or(LabelOf(labels, a), LabelOf(labels, b))
  }

  /** One persisted relationship. */
  datatype Relationship = Relationship(a: string, b: string, similarity: real, kind: string, domainLabel: Option<string>)

  /** `canonical_map.get(x, x)`. */
  function Remap(m: map<string, string>, x: string): string {
    if x in m then m[x] else x
  }

  /** The relationships as the code writes them: the pair's terms, which are
      already canonical, are looked up in the canonical map once more. */
  function RelationshipsAsWritten(pairs: seq<Pair>, cmap: map<string, string>, labels: map<string, Option<string>>): (r: seq<Relationship>)
    ensures |r| == |pairs|
    ensures forall k | 0 <= k < |r| ::
              r[k].a == Remap(cmap, pairs[k].a) && r[k].b == Remap(cmap, pairs[k].b)
              && r[k].similarity == pairs[k].similarity && r[k].kind == pairs[k].kind
              && r[k].domainLabel == PairLabel(labels, r[k].a, r[k].b)
  {
    seq(|pairs|, k requires 0 <= k < |pairs| =>
      var a := Remap(cmap, pairs[k].a);
      var b := Remap(cmap, pairs[k].b);
      Relationship(a, b, pairs[k].similarity, pairs[k].kind, PairLabel(labels, a, b)))
  }

  /** The relationships with the pair's own canonical terms. */
  function Relationships(pairs: seq<Pair>, labels: map<string, Option<string>>): (r: seq<Relationship>)
    ensures |r| == |pairs|
    ensures forall k | 0 <= k < |r| ::
              r[k].a == pairs[k].a && r[k].b == pairs[k].b && r[k].similarity == pairs[k].similarity
              && r[k].domainLabel == PairLabel(labels, pairs[k].a, pairs[k].b)
  {
    seq(|pairs|, k requires 0 <= k < |pairs| =>
      Relationship(pairs[k].a, pairs[k].b, pairs[k].similarity, pairs[k].kind, PairLabel(labels, pairs[k].a, pairs[k].b)))
  }

  /** Looking a lower-case term up in the canonical map gives a lower-case term. */
  lemma WrittenEndsLower(pairs: seq<Pair>, texts: seq<string>, synsets: string -> seq<Synset>, labels: map<string, Option<string>>)
    requires forall p | p in pairs :: Lower(p.a) == p.a && Lower(p.b) == p.b
    ensures forall rel | rel in RelationshipsAsWritten(pairs, CanonicalMap(texts, synsets), labels) ::
              Lower(rel.a) == rel.a && Lower(rel.b) == rel.b
  {
    var cmap := CanonicalMap(texts, synsets);
    var rels := RelationshipsAsWritten(pairs, cmap, labels);
    forall rel | rel in rels ensures Lower(rel.a) == rel.a && Lower(rel.b) == rel.b {
      var k :| 0 <= k < |rels| && rels[k] == rel;
      assert pairs[k] in pairs;
    }
  }

  /** Where the canonical map leaves every pair's terms as they are, the
      relationships as written are the corrected ones. */
  lemma RelationshipsAgreeWhenStable(pairs: seq<Pair>, cmap: map<string, string>, labels: map<string, Option<string>>)
    requires forall p | p in pairs :: Remap(cmap, p.a) == p.a && Remap(cmap, p.b) == p.b
    ensures RelationshipsAsWritten(pairs, cmap, labels) == Relationships(pairs, labels)
  {
    var w := RelationshipsAsWritten(pairs, cmap, labels);
    var c := Relationships(pairs, labels);
    forall k | 0 <= k < |pairs| ensures w[k] == c[k] {
      assert pairs[k] in pairs;
    }
  }

  /** With the pair's own terms, a relationship never joins a concept with
      itself: its ends are the two different concepts of a pair. */
  lemma RelationshipsDistinctEnds(concepts: seq<string>, similarity: (string, string) -> real, labels: map<string, Option<string>>)
    requires StrictlySorted(concepts)
    ensures forall r | r in Relationships(ScoredPairs(concepts, similarity), labels) ::
              r.a != r.b && r.a in concepts && r.b in concepts
  {
    var pairs := ScoredPairs(concepts, similarity);
    var rs := Relationships(pairs, labels);
    ScoredPairsOrdered(concepts, similarity);
    forall r | r in rs ensures r.a != r.b && r.a in concepts && r.b in concepts {
      var k :| 0 <= k < |rs| && rs[k] == r;
      assert pairs[k] in pairs;
      LessIrreflexive(r.a);
    }
  }

  /** A WordNet in which "x" has the sense `s.n.01` with the lemma "y",
      "y" has the sense `t.n.01` with the lemma "z", and nothing else has a
      sense. */
  function ExampleSynsets(w: string): seq<Synset> {
    if w == "x" then [Synset("s.n.01", ["y"])]
    else if w == "y" then [Synset("t.n.01", ["z"])]
    else []
  }

  lemma ExampleCanonical()
    ensures Canonical("x", ExampleSynsets) == "y"
    ensures Canonical("y", ExampleSynsets) == "z"
  {
    assert Spaced("y") == "y" && Spaced("z") == "z";
    assert Lower("y") == "y" && Lower("z") == "z";
  }

  /** The stored texts "x" and "y" canonicalise to the concepts "y", "z". */
  lemma ExampleConcepts()
    ensures Canonicals(["x", "y"], ExampleSynsets) == ["y", "z"]
  {
    ExampleCanonical();
    var texts := ["x", "y"];
    var c := Canonicals(texts, ExampleSynsets);
    var concepts := ["y", "z"];
    assert Less("y", "z");
    forall w ensures w in c <==> w in concepts {
      if w in c {
        var i :| 0 <= i < |texts| && Canonical(texts[i], ExampleSynsets) == w;
      }
      if w == "y" {
        assert Canonical(texts[0], ExampleSynsets) == w;
      }
      if w == "z" {
        assert Canonical(texts[1], ExampleSynsets) == w;
      }
    }
    StrictlySortedUnique(c, concepts);
  }

  /** The only pair of ["y", "z"] is ("y", "z"). */
  lemma ExamplePairs(similarity: (string, string) -> real)
    ensures ScoredPairs(["y", "z"], similarity) == [Pair("y", "z", similarity("y", "z"), "object")]
  {
    assert PairsOf(["z"]) == [];
    assert PairsOf(["y", "z"]) == [("y", "z")];
  }

  /** The stored texts "x" and "y" under `ExampleSynsets`: the concepts are
      "y" and "z", the only pair is ("y", "z"), yet the relationship written
      for it joins "z" with itself. */
  lemma RemapMakesSelfRelationship(similarity: (string, string) -> real, labels: map<string, Option<string>>)
    ensures var texts := ["x", "y"];
            var pairs := ScoredPairs(Canonicals(texts, ExampleSynsets), similarity);
            var rels := RelationshipsAsWritten(pairs, CanonicalMap(texts, ExampleSynsets), labels);
            Canonicals(texts, ExampleSynsets) == ["y", "z"]
            && |pairs| == 1 && pairs[0].a == "y" && pairs[0].b == "z"
            && |rels| == 1 && rels[0].a == "z" && rels[0].b == "z"
  {
    ExampleConcepts();
    ExamplePairs(similarity);
    ExampleCanonical();
    var m := CanonicalMap(["x", "y"], ExampleSynsets);
    assert "y" in ["x", "y"] && "z" !in ["x", "y"];
    assert Remap(m, "y") == "z" && Remap(m, "z") == "z";
  }

  // ----- clusters in the output -----

  datatype ClusterOut = ClusterOut(name: Option<string>, members: seq<string>)

  /** `{'label': label_cluster(g), 'members': sorted(g)}` for each cluster. */
  function ClustersOut(clusters: seq<seq<string>>, labeller: seq<string> -> Option<string>): (r: seq<ClusterOut>)
    ensures |r| == |clusters|
    ensures forall g | 0 <= g < |r| ::
              r[g].name == labeller(clusters[g]) && Sorted(r[g].members) && multiset(r[g].members) == multiset(clusters[g])
  {
    seq(|clusters|, g requires 0 <= g < |clusters| => ClusterOut(labeller(clusters[g]), Sort(clusters[g])))
  }

  // ----- helpers -----

  /** An input of `generate_synonym_records`: a dict, or anything else,
      which is used through `str(c)`. */
  datatype SynonymInput = DictInput(name: Option<string>, text: Option<string>) | OtherInput(str: string)

  function NameOf(c: SynonymInput): Option<string> {
    match c
    case DictInput(n, t) => Or(n, t)
    case OtherInput(s) => Some(s)
  }

  datatype SynonymRecord = SynonymRecord(concept: string, synonyms: seq<string>)

  /** services/phase3/helpers.py `generate_synonym_records`: one record per
      named input, in input order, listing the name as its only synonym. */
  function SynonymRecords(cs: seq<SynonymInput>): (r: seq<SynonymRecord>)
    ensures var q := Select(|cs|, (i: nat) => i < |cs| && Truthy(NameOf(cs[i])));
            |r| == |q| && forall k | 0 <= k < |q| ::
              q[k] < |cs| && Truthy(NameOf(cs[q[k]])) && r[k] == SynonymRecord(NameOf(cs[q[k]]).value, [NameOf(cs[q[k]]).value])
  {
    var q := Select(|cs|, (i: nat) => i < |cs| && Truthy(NameOf(cs[i])));
    assert forall k | 0 <= k < |q| :: q[k] in q;
    seq(|q|, k requires 0 <= k < |q| => var n := NameOf(cs[q[k]]).value; SynonymRecord(n, [n]))
  }

  /** Every named input gets a record, and every record's concept is named. */
  lemma SynonymRecordsComplete(cs: seq<SynonymInput>, i: nat)
    requires i < |cs| && Truthy(NameOf(cs[i]))
    ensures SynonymRecord(NameOf(cs[i]).value, [NameOf(cs[i]).value]) in SynonymRecords(cs)
  {
    var q := Select(|cs|, (j: nat) => j < |cs| && Truthy(NameOf(cs[j])));
    assert i in q;
    var k :| 0 <= k < |q| && q[k] == i;
    assert SynonymRecords(cs)[k] == SynonymRecord(NameOf(cs[i]).value, [NameOf(cs[i]).value]);
  }

  /** When every input is named, there is one record per input, in order. */
  lemma SynonymRecordsAllNamed(cs: seq<SynonymInput>)
    requires forall i | 0 <= i < |cs| :: Truthy(NameOf(cs[i]))
    ensures |SynonymRecords(cs)| == |cs|
    ensures forall i | 0 <= i < |cs| ::
              SynonymRecords(cs)[i] == SynonymRecord(NameOf(cs[i]).value, [NameOf(cs[i]).value])
  {
    var q := Select(|cs|, (i: nat) => i < |cs| && Truthy(NameOf(cs[i])));
    IncreasingAll(q, |cs|);
  }

  /** `[{ 'text': t } for t in concept_texts]`. */
  function TextInputs(texts: seq<string>): (r: seq<SynonymInput>)
    ensures |r| == |texts| && forall i | 0 <= i < |texts| :: NameOf(r[i]) == Some(texts[i])
  {
    seq(|texts|, i requires 0 <= i < |texts| => DictInput(None, Some(texts[i])))
  }

  /** One SVO item handed to `save_svo_relationships`. */
  datatype SvoItem = SvoItem(userStoryDbId: Option<int>, subject: Option<string>, verb: Option<string>, obj: Option<string>)

  /** What the filter lets through, before the concept lookups. */
  datatype SvoCandidate = SvoCandidate(usid: int, subject: string, verb: Option<string>, obj: string)

  /** The filter of `save_svo_relationships`: a story id, a subject and an
      object are needed; an empty verb is stored as `None`. */
  function SvoFilter(s: SvoItem): (r: Option<SvoCandidate>)
    ensures r.Some? <==> TruthyInt(s.userStoryDbId) && Strip(OrEmpty(s.subject)) != "" && Strip(OrEmpty(s.obj)) != ""
    ensures r.Some? ==> r.value.usid == s.userStoryDbId.value
                        && r.value.subject == Strip(OrEmpty(s.subject)) && r.value.obj == Strip(OrEmpty(s.obj))
                        && (r.value.verb.None? <==> Strip(OrEmpty(s.verb)) == "")
                        && (r.value.verb.Some? ==> r.value.verb.value == Strip(OrEmpty(s.verb)))
  {
    Candidate(s.userStoryDbId, Strip(OrEmpty(s.subject)), Strip(OrEmpty(s.verb)), Strip(OrEmpty(s.obj)))
  }

  /** The filter on the stripped fields. */
  function Candidate(usid: Option<int>, subj: string, verb: string, obj: string): Option<SvoCandidate> {
    if !(TruthyInt(usid) && subj != "" && obj != "") then None
    else Some(SvoCandidate(usid.value, subj, if verb == "" then None else Some(verb), obj))
  }

  /** Filtering again changes nothing: the kept fields are already stripped. */
  lemma SvoFilterStable(s: SvoItem)
    requires SvoFilter(s).Some?
    ensures var c := SvoFilter(s).value;
            SvoFilter(SvoItem(Some(c.usid), Some(c.subject), c.verb, Some(c.obj))) == Some(c)
  {
    CandidateStable(s.userStoryDbId, OrEmpty(s.subject), OrEmpty(s.verb), OrEmpty(s.obj));
  }

  lemma CandidateStable(usid: Option<int>, subj: string, verb: string, obj: string)
    requires Candidate(usid, Strip(subj), Strip(verb), Strip(obj)).Some?
    ensures var c := Candidate(usid, Strip(subj), Strip(verb), Strip(obj)).value;
            Candidate(Some(c.usid), Strip(c.subject), Strip(OrEmpty(c.verb)), Strip(c.obj)) == Some(c)
  {
    var a, b, o := Strip(subj), Strip(verb), Strip(obj);
    assert usid.Some? && a != "" && o != "";
    var c := SvoCandidate(usid.value, a, if b == "" then None else Some(b), o);
    assert Candidate(usid, a, b, o) == Some(c);
    StripIdempotent(subj);
    StripIdempotent(obj);
    VerbStays(verb);
    assert Strip(c.subject) == a && Strip(c.obj) == o && Strip(OrEmpty(c.verb)) == b;
    assert Candidate(Some(c.usid), a, b, o) == Some(c);
  }

  lemma VerbStays(v: string)
    ensures var w := Strip(v);
            Strip(OrEmpty(if w == "" then None else Some(w))) == w
  {
    StripIdempotent(v);
    StripEmpty();
  }

  lemma StripEmpty()
    ensures Strip("") == ""
  {
  }

  // ----- process_wordnet -----

  datatype Output = Output(
    concepts: seq<string>, synonyms: seq<SynonymRecord>, pairs: seq<Pair>, clusters: seq<ClusterOut>,
    relationships: seq<Relationship>)

  /** services/phase3/__init__.py `process_wordnet`, with the stored concept
      texts, the exclusion filter, WordNet, the combined similarity, the
      clustering and the cluster labeller as inputs. The relationships are
      written as the code writes them, through the canonical map once more. */
  function ProcessWordnet(
    raws: seq<Option<string>>, exclude: string -> Option<string>, synsets: string -> seq<Synset>,
    similarity: (string, string) -> real, cluster: (seq<string>, seq<Pair>) -> seq<seq<string>>,
    labeller: seq<string> -> Option<string>): (r: Output)
    ensures r.concepts == Canonicals(ConceptTexts(raws, exclude), synsets)
    ensures StrictlySorted(r.concepts) && forall c | c in r.concepts :: Lower(c) == c
    ensures r.pairs == ScoredPairs(r.concepts, similarity)
    ensures forall p | p in r.pairs :: Less(p.a, p.b) && p.a in r.concepts && p.b in r.concepts && p.kind == "object"
    ensures r.clusters == ClustersOut(cluster(r.concepts, r.pairs), labeller)
    ensures |r.relationships| == |r.pairs|
    ensures forall k | 0 <= k < |r.relationships| ::
              var cmap := CanonicalMap(ConceptTexts(raws, exclude), synsets);
              r.relationships[k].a == Remap(cmap, r.pairs[k].a) && r.relationships[k].b == Remap(cmap, r.pairs[k].b)
              && r.relationships[k].similarity == r.pairs[k].similarity
    ensures forall rel | rel in r.relationships ::
              rel.domainLabel == PairLabel(ConceptLabels(cluster(r.concepts, r.pairs), labeller), rel.a, rel.b)
    ensures forall rel | rel in r.relationships :: Lower(rel.a) == rel.a && Lower(rel.b) == rel.b
  {
    var texts := ConceptTexts(raws, exclude);
    var concepts := Canonicals(texts, synsets);
    var pairs := ScoredPairs(concepts, similarity);
    ScoredPairsOrdered(concepts, similarity);
    var clusters := cluster(concepts, pairs);
    var labels := ConceptLabels(clusters, labeller);
    var cmap := CanonicalMap(texts, synsets);
    var rels := RelationshipsAsWritten(pairs, cmap, labels);
    WrittenEndsLower(pairs, texts, synsets, labels);
    Output(concepts, SynonymRecords(TextInputs(texts)), pairs, ClustersOut(clusters, labeller), rels)
  }

  /** `process_wordnet` with the relationships built from the pairs' own
      canonical terms: everything else as written, and no relationship joins
      a concept with itself. */
  function ProcessWordnetIntended(
    raws: seq<Option<string>>, exclude: string -> Option<string>, synsets: string -> seq<Synset>,
    similarity: (string, string) -> real, cluster: (seq<string>, seq<Pair>) -> seq<seq<string>>,
    labeller: seq<string> -> Option<string>): (r: Output)
    ensures var w := ProcessWordnet(raws, exclude, synsets, similarity, cluster, labeller);
            r.concepts == w.concepts && r.synonyms == w.synonyms && r.pairs == w.pairs && r.clusters == w.clusters
    ensures |r.relationships| == |r.pairs|
    ensures forall k | 0 <= k < |r.relationships| ::
              r.relationships[k].a == r.pairs[k].a && r.relationships[k].b == r.pairs[k].b
              && r.relationships[k].similarity == r.pairs[k].similarity
              && r.relationships[k].domainLabel
                 == PairLabel(ConceptLabels(cluster(r.concepts, r.pairs), labeller), r.pairs[k].a, r.pairs[k].b)
    ensures forall rel | rel in r.relationships :: rel.a != rel.b && rel.a in r.concepts && rel.b in r.concepts
  {
    var texts := ConceptTexts(raws, exclude);
    var concepts := Canonicals(texts, synsets);
    var pairs := ScoredPairs(concepts, similarity);
    var labels := ConceptLabels(cluster(concepts, pairs), labeller);
    RelationshipsDistinctEnds(concepts, similarity, labels);
    ProcessWordnet(raws, exclude, synsets, similarity, cluster, labeller).(relationships := Relationships(pairs, labels))
  }

  /** When no concept is a stored text that canonicalises to something else,
      the code as written already produces the intended relationships. */
  lemma ProcessWordnetAgreesWhenStable(
    raws: seq<Option<string>>, exclude: string -> Option<string>, synsets: string -> seq<Synset>,
    similarity: (string, string) -> real, cluster: (seq<string>, seq<Pair>) -> seq<seq<string>>,
    labeller: seq<string> -> Option<string>)
    requires var texts := ConceptTexts(raws, exclude);
             forall c | c in Canonicals(texts, synsets) && c in texts :: Canonical(c, synsets) == c
    ensures ProcessWordnet(raws, exclude, synsets, similarity, cluster, labeller)
            == ProcessWordnetIntended(raws, exclude, synsets, similarity, cluster, labeller)
  {
    var texts := ConceptTexts(raws, exclude);
    var concepts := Canonicals(texts, synsets);
    var pairs := ScoredPairs(concepts, similarity);
    ScoredPairsOrdered(concepts, similarity);
    var labels := ConceptLabels(cluster(concepts, pairs), labeller);
    RelationshipsAgreeWhenStable(pairs, CanonicalMap(texts, synsets), labels);
  }

  /** The synonym records of `process_wordnet` are one per surviving concept
      text, in sorted order, each listing only itself. */
  lemma ProcessWordnetSynonyms(
    raws: seq<Option<string>>, exclude: string -> Option<string>, synsets: string -> seq<Synset>,
    similarity: (string, string) -> real, cluster: (seq<string>, seq<Pair>) -> seq<seq<string>>,
    labeller: seq<string> -> Option<string>)
    ensures var texts := ConceptTexts(raws, exclude);
            var syn := ProcessWordnet(raws, exclude, synsets, similarity, cluster, labeller).synonyms;
            |syn| == |texts| && forall i | 0 <= i < |texts| :: syn[i] == SynonymRecord(texts[i], [texts[i]])
  {
    var texts := ConceptTexts(raws, exclude);
    ConceptTextsNonEmpty(raws, exclude);
    SynonymRecordsAllNamed(TextInputs(texts));
  }

  /** A surviving concept text is never empty. */
  lemma ConceptTextsNonEmpty(raws: seq<Option<string>>, exclude: string -> Option<string>)
    ensures forall t | t in ConceptTexts(raws, exclude) :: t != ""
  {
    forall t | t in ConceptTexts(raws, exclude) ensures t != "" {
      var j :| 0 <= j < |raws| && Survivor(raws[j], exclude) == Some(t);
    }
  }
}
