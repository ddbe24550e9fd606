/**
 * The three WordNet Phase 3 pipelines of the `analyzeUserStory` side:
 * phase3.py, analyzeUserStory/phase3.py (adds word2vec pairs and loading
 * the records back from stored concepts) and the package version
 * analyzeUserStory/phase3/__init__.py with its helpers, which computes no
 * pairs and no synonyms.
 */
module WordnetPhase3 {
  import opened Wrappers
  import opened Strings
  import opened Phase3Records
  import opened Lexical
  import opened Indices

  /** One `pairwise_relationships` entry. */
  datatype Pairwise = Pairwise(concept1: string, concept2: string, relationshipType: string, strength: real)

  function PairwiseOf(s: Similarity): Pairwise {
    Pairwise(s.concept1, s.concept2, s.how, s.score)
  }

  datatype Output = Output(
    userRoles: seq<string>,
    objects: seq<string>,
    verbs: seq<string>,
    svo: seq<Entry>,
    pairwise: seq<Pairwise>,
    synonyms: map<string, seq<string>>)

  /** The part of the output every variant computes the same way. */
  function Lists(rs: seq<InRecord>): (r: (seq<string>, seq<string>, seq<string>))
    ensures Distinct(r.0) && Distinct(r.1) && Distinct(r.2)
    ensures forall t :: t in r.0 <==> t != "" && exists i | 0 <= i < |rs| :: Contains(rs[i].classification, "role") && rs[i].text == Some(t)
    ensures forall t :: t in r.1 <==> t != "" && exists i | 0 <= i < |rs| :: Contains(rs[i].classification, "object") && rs[i].text == Some(t)
    ensures forall t :: t in r.2 <==> t != "" && exists i | 0 <= i < |rs| :: rs[i].classification == "feature" && rs[i].text == Some(t)
  {
    (DistinctTexts(rs, RoleRecord), DistinctTexts(rs, ObjectRecord), DistinctTexts(rs, VerbRecord))
  }

  /** The pairwise entries of the similarities, one each, in order. */
  function PairwiseAll(sims: seq<Similarity>): (r: seq<Pairwise>)
    ensures |r| == |sims|
    ensures forall k | 0 <= k < |r| ::
              r[k].concept1 == sims[k].concept1 && r[k].concept2 == sims[k].concept2
              && r[k].strength == sims[k].score && r[k].relationshipType == sims[k].how
  {
    seq(|sims|, k requires 0 <= k < |sims| => PairwiseOf(sims[k]))
  }

  /** The Wu-Palmer score of two concepts through the lexicon. */
  function WupScore(lex: Lexicon, wup: (Synset, Synset) -> Option<real>): (string, string) -> Option<real> {
    (a, b) => ConceptScore(lex, wup, a, b)
  }

  /** Every `how` entry carries the score `score` gives its two concepts. */
  predicate ScoresFrom(pw: seq<Pairwise>, score: (string, string) -> Option<real>, how: string) {
    forall p | p in pw && p.relationshipType == how :: score(p.concept1, p.concept2) == Some(p.strength)
  }

  /** Every pair of concepts, earlier one first, that `score` puts strictly
      above `threshold` is reported as a `how` entry with that score. */
  predicate ReportsAbove(pw: seq<Pairwise>, concepts: seq<string>, score: (string, string) -> Option<real>,
                         threshold: real, how: string) {
    forall i, j | 0 <= i < j < |concepts| && score(concepts[i], concepts[j]).Some?
                  && score(concepts[i], concepts[j]).value > threshold ::
      Pairwise(concepts[i], concepts[j], how, score(concepts[i], concepts[j]).value) in pw
  }

  /** Similarities complete over the pairs give pairwise entries complete
      over the concepts. */
  lemma PairwiseReports(concepts: seq<string>, sims: seq<Similarity>, score: (string, string) -> Option<real>,
                        threshold: real, how: string)
    requires forall p | p in PairsOf(concepts) && score(p.0, p.1).Some? && score(p.0, p.1).value > threshold ::
               Similarity(p.0, p.1, score(p.0, p.1).value, how) in sims
    ensures ReportsAbove(PairwiseAll(sims), concepts, score, threshold, how)
  {
    PairsMembers(concepts);
    var pw := PairwiseAll(sims);
    forall i, j | 0 <= i < j < |concepts| && score(concepts[i], concepts[j]).Some?
                  && score(concepts[i], concepts[j]).value > threshold
      ensures Pairwise(concepts[i], concepts[j], how, score(concepts[i], concepts[j]).value) in pw
    {
      var sim := Similarity(concepts[i], concepts[j], score(concepts[i], concepts[j]).value, how);
      assert (concepts[i], concepts[j]) in PairsOf(concepts);
      var k :| 0 <= k < |sims| && sims[k] == sim;
      assert pw[k] == PairwiseOf(sim);
    }
  }

  /** Every entry carries the score of the similarity it comes from. */
  lemma PairwiseScores(sims: seq<Similarity>, score: (string, string) -> Option<real>, how: string)
    requires forall s | s in sims && s.how == how :: score(s.concept1, s.concept2) == Some(s.score)
    ensures ScoresFrom(PairwiseAll(sims), score, how)
  {
    var pw := PairwiseAll(sims);
    forall p | p in pw && p.relationshipType == how ensures score(p.concept1, p.concept2) == Some(p.strength) {
      var k :| 0 <= k < |pw| && pw[k] == p;
      assert sims[k] in sims;
    }
  }

  /** Every reported entry comes from a similarity of a pair of different
      concepts. */
  lemma PairwiseFromPairs(concepts: seq<string>, sims: seq<Similarity>)
    requires Distinct(concepts)
    requires forall s | s in sims :: (s.concept1, s.concept2) in PairsOf(concepts)
    ensures forall p | p in PairwiseAll(sims) ::
              p.concept1 != p.concept2 && p.concept1 in concepts && p.concept2 in concepts
              && exists s | s in sims :: p == PairwiseOf(s)
  {
    PairsSound(concepts);
    PairsNoSelf(concepts);
    var pw := PairwiseAll(sims);
    forall p | p in pw
      ensures p.concept1 != p.concept2 && p.concept1 in concepts && p.concept2 in concepts
              && exists s | s in sims :: p == PairwiseOf(s)
    {
      var k :| 0 <= k < |pw| && pw[k] == p;
      assert p == PairwiseOf(sims[k]) && sims[k] in sims;
    }
  }

  /** With word2vec installed, its entries are sound and complete too. */
  lemma Word2VecPairwise(concepts: seq<string>, sims: seq<Similarity>, w2v: Option<(string, string) -> Option<real>>)
    requires w2v.Some? ==> forall p | p in PairsOf(concepts) && w2v.value(p.0, p.1).Some? && w2v.value(p.0, p.1).value > Word2VecThreshold ::
                             Similarity(p.0, p.1, w2v.value(p.0, p.1).value, "word2vec") in sims
    requires w2v.Some? ==> forall s | s in sims && s.how == "word2vec" :: w2v.value(s.concept1, s.concept2) == Some(s.score)
    ensures w2v.Some? ==> ScoresFrom(PairwiseAll(sims), w2v.value, "word2vec")
                          && ReportsAbove(PairwiseAll(sims), concepts, w2v.value, Word2VecThreshold, "word2vec")
  {
    if w2v.Some? {
      PairwiseReports(concepts, sims, w2v.value, Word2VecThreshold, "word2vec");
      PairwiseScores(sims, w2v.value, "word2vec");
    }
  }

  /** phase3.py `_calculate_similarity` over the batch's concepts: a
      Wu-Palmer entry, with its score, for exactly the pairs of different
      concepts scored strictly above 0.5. */
  function PlainPairwise(concepts: seq<string>, lex: Lexicon, wup: (Synset, Synset) -> Option<real>): (pw: seq<Pairwise>)
    requires Distinct(concepts)
    ensures forall p | p in pw ::
              p.concept1 != p.concept2 && p.concept1 in concepts && p.concept2 in concepts
              && p.relationshipType == "Wu-Palmer" && p.strength > WuPalmerThreshold
    ensures ScoresFrom(pw, WupScore(lex, wup), "Wu-Palmer")
    ensures ReportsAbove(pw, concepts, WupScore(lex, wup), WuPalmerThreshold, "Wu-Palmer")
  {
    var sims := WuPalmerPairs(PairsOf(concepts), WupScore(lex, wup));
    PairwiseFromPairs(concepts, sims);
    PairwiseReports(concepts, sims, WupScore(lex, wup), WuPalmerThreshold, "Wu-Palmer");
    PairwiseScores(sims, WupScore(lex, wup), "Wu-Palmer");
    PairwiseAll(sims)
  }

  /** analyzeUserStory/phase3.py `_calculate_similarity` over the batch's
      concepts: the Wu-Palmer entries as above and, with word2vec
      installed, a word2vec entry, with its score, for exactly the pairs
      scored strictly above 0.6. */
  function AnalyzePairwise(concepts: seq<string>, lex: Lexicon, wup: (Synset, Synset) -> Option<real>,
                           w2v: Option<(string, string) -> Option<real>>): (pw: seq<Pairwise>)
    requires Distinct(concepts)
    ensures forall p | p in pw ::
              p.concept1 != p.concept2 && p.concept1 in concepts && p.concept2 in concepts
              && (p.relationshipType == "Wu-Palmer" ==> p.strength > WuPalmerThreshold)
              && (p.relationshipType != "Wu-Palmer" ==> p.relationshipType == "word2vec" && p.strength > Word2VecThreshold)
    ensures ScoresFrom(pw, WupScore(lex, wup), "Wu-Palmer")
    ensures ReportsAbove(pw, concepts, WupScore(lex, wup), WuPalmerThreshold, "Wu-Palmer")
    ensures w2v.Some? ==> ScoresFrom(pw, w2v.value, "word2vec")
                          && ReportsAbove(pw, concepts, w2v.value, Word2VecThreshold, "word2vec")
    ensures w2v.None? ==> pw == PlainPairwise(concepts, lex, wup)
  {
    var ps := PairsOf(concepts);
    var sims := BothPairs(ps, WupScore(lex, wup), w2v);
    PairwiseFromPairs(concepts, sims);
    BothPairsComplete(ps, WupScore(lex, wup), w2v);
    PairwiseReports(concepts, sims, WupScore(lex, wup), WuPalmerThreshold, "Wu-Palmer");
    PairwiseScores(sims, WupScore(lex, wup), "Wu-Palmer");
    Word2VecPairwise(concepts, sims, w2v);
    PairwiseAll(sims)
  }

  /** phase3.py `process_wordnet` on a fresh object: the class lists and
      the SVO list of the records, the Wu-Palmer entries over its concepts,
      and synonyms for exactly the concepts with lemma names. */
  function ProcessPlain(rs: seq<InRecord>, lex: Lexicon, wup: (Synset, Synset) -> Option<real>): (r: Output)
    ensures (r.userRoles, r.objects, r.verbs) == Lists(rs) && r.svo == Svo(rs, false)
    ensures forall p | p in r.pairwise ::
              p.concept1 != p.concept2 && p.concept1 in Concepts(rs) && p.concept2 in Concepts(rs)
              && p.relationshipType == "Wu-Palmer" && p.strength > WuPalmerThreshold
    ensures ScoresFrom(r.pairwise, WupScore(lex, wup), "Wu-Palmer")
    ensures ReportsAbove(r.pairwise, Concepts(rs), WupScore(lex, wup), WuPalmerThreshold, "Wu-Palmer")
    ensures forall c :: c in r.synonyms <==> c in Concepts(rs) && |LemmaNames(ChosenSynsets(lex, c))| > 0
    ensures forall c | c in r.synonyms :: r.synonyms[c] == SynonymsOf(lex, c) && Clean(r.synonyms[c], c)
    ensures forall e | e in r.svo :: NonEmpty(e)
  {
    var concepts := Concepts(rs);
    var lists := Lists(rs);
    Output(lists.0, lists.1, lists.2, Svo(rs, false), PlainPairwise(concepts, lex, wup), SynonymMap(lex, concepts))
  }

  /** analyzeUserStory/phase3.py `process_wordnet` on a fresh object: as
      phase3.py, plus a word2vec entry above 0.6 for a pair when word2vec
      is installed (`w2v` present). */
  function ProcessAnalyze(rs: seq<InRecord>, lex: Lexicon, wup: (Synset, Synset) -> Option<real>,
                          w2v: Option<(string, string) -> Option<real>>): (r: Output)
    ensures (r.userRoles, r.objects, r.verbs) == Lists(rs) && r.svo == Svo(rs, false)
    ensures forall p | p in r.pairwise ::
              p.concept1 != p.concept2 && p.concept1 in Concepts(rs) && p.concept2 in Concepts(rs)
              && (p.relationshipType == "Wu-Palmer" ==> p.strength > WuPalmerThreshold)
              && (p.relationshipType != "Wu-Palmer" ==> p.relationshipType == "word2vec" && p.strength > Word2VecThreshold)
    ensures ScoresFrom(r.pairwise, WupScore(lex, wup), "Wu-Palmer")
    ensures ReportsAbove(r.pairwise, Concepts(rs), WupScore(lex, wup), WuPalmerThreshold, "Wu-Palmer")
    ensures w2v.Some? ==> ScoresFrom(r.pairwise, w2v.value, "word2vec")
                          && ReportsAbove(r.pairwise, Concepts(rs), w2v.value, Word2VecThreshold, "word2vec")
    ensures w2v.None? ==> r == ProcessPlain(rs, lex, wup)
    ensures forall c :: c in r.synonyms <==> c in Concepts(rs) && |LemmaNames(ChosenSynsets(lex, c))| > 0
    ensures forall c | c in r.synonyms :: r.synonyms[c] == SynonymsOf(lex, c) && Clean(r.synonyms[c], c)
    ensures forall e | e in r.svo :: NonEmpty(e)
  {
    var concepts := Concepts(rs);
    var lists := Lists(rs);
    Output(lists.0, lists.1, lists.2, Svo(rs, false), AnalyzePairwise(concepts, lex, wup, w2v), SynonymMap(lex, concepts))
  }

  // ----- loading the records back (analyzeUserStory/phase3.py `_load_from_database`) -----

  /** A stored concept row with its story and the metadata read from it. */
  datatype StoredConcept = StoredConcept(
    storyId: Option<string>, originalText: Option<string>,
    role: Option<string>, action: Option<string>, obj: Option<string>,
    classification: Option<string>, isFeature: Option<int>, valueFlag: Option<int>)

  datatype LoadedRecord = LoadedRecord(
    index: nat, usidText: string, text: Option<string>, classification: string,
    featureFlag: Option<int>, valueFlag: Option<int>)

  /** The stored classification, else one guessed from the filled column. */
  function ClassOf(c: StoredConcept): (cls: string)
    ensures Truthy(c.classification) ==> cls == c.classification.value
    ensures !Truthy(c.classification) ==>
              (cls == "feature" <==> Truthy(c.action))
              && (cls == "role" <==> !Truthy(c.action) && Truthy(c.role))
              && (cls == "object" <==> !Truthy(c.action) && !Truthy(c.role) && Truthy(c.obj))
              && (cls == "unknown" <==> !Truthy(c.action) && !Truthy(c.role) && !Truthy(c.obj))
  {
    if Truthy(c.classification) then c.classification.value
    else if Truthy(c.action) then "feature"
    else if Truthy(c.role) then "role"
    else if Truthy(c.obj) then "object"
    else "unknown"
  }

  /** The text a record takes from its concept under its classification. */
  function TextFor(c: StoredConcept, cls: string): Option<string> {
    if cls == "feature" then c.action
    else if Contains(cls, "role") then c.role
    else if Contains(cls, "object") then c.obj
    else Or(c.action, Or(c.role, Or(c.obj, Some(""))))
  }

  /** The record rebuilt from the `i`-th stored concept: its text is the
      column its classification names ("feature" the action, a name holding
      "role" the role, one holding "object" the object), else the first
      filled column; its story text is "<story id>: <original text>". */
  function Load(c: StoredConcept, i: nat): (r: LoadedRecord)
    ensures r.index == i + 1 && r.classification == ClassOf(c)
    ensures r.classification == "feature" ==> r.valueFlag == None && r.featureFlag == c.isFeature
    ensures r.classification != "feature" ==> r.featureFlag == None && r.valueFlag == c.valueFlag
    ensures r.classification == "feature" ==> r.text == c.action
    ensures r.classification != "feature" && Contains(r.classification, "role") ==> r.text == c.role
    ensures r.classification != "feature" && !Contains(r.classification, "role") && Contains(r.classification, "object") ==>
              r.text == c.obj
    ensures r.classification != "feature" && !Contains(r.classification, "role") && !Contains(r.classification, "object") ==>
              r.text == Or(c.action, Or(c.role, Or(c.obj, Some(""))))
    ensures r.usidText == PyStr(c.storyId) + ": " + PyStr(c.originalText)
  {
    var cls := ClassOf(c);
    LoadedRecord(i + 1, PyStr(c.storyId) + ": " + PyStr(c.originalText), TextFor(c, cls), cls,
                 if cls == "feature" then c.isFeature else None,
                 if cls != "feature" then c.valueFlag else None)
  }

  /** The story map of Phase 3 reads the story id back from a loaded
      record's story text, provided the id itself holds no `:`. */
  lemma LoadUsidRoundTrip(c: StoredConcept, i: nat)
    requires ':' !in PyStr(c.storyId)
    ensures UsidKey(AsInRecord(Load(c, i))) == Strip(PyStr(c.storyId))
  {
    var id := PyStr(c.storyId);
    assert Load(c, i).usidText == id + [':'] + (" " + PyStr(c.originalText));
    BeforeFirstChar(id, ':', " " + PyStr(c.originalText));
  }

  function LoadAll(cs: seq<StoredConcept>): (r: seq<LoadedRecord>)
    ensures |r| == |cs| && forall i | 0 <= i < |cs| :: r[i] == Load(cs[i], i)
  {
    seq(|cs|, i requires 0 <= i < |cs| => Load(cs[i], i))
  }

  /** Without a stored classification the rebuilt record carries the first
      filled column of action, role and object, and is classified as that
      column; a concept with no filled column gets an empty "unknown" text. */
  lemma LoadGuess(c: StoredConcept)
    requires !Truthy(c.classification)
    ensures var r := Load(c, 0);
            (Truthy(r.text) <==> Truthy(c.action) || Truthy(c.role) || Truthy(c.obj))
            && r.text == Or(c.action, Or(c.role, Or(c.obj, Some(""))))
            && (Truthy(c.action) ==> KindOf(r.classification) == Some(VerbKind))
            && (!Truthy(c.action) && Truthy(c.role) ==> KindOf(r.classification) == Some(SubjectKind))
            && (!Truthy(c.action) && !Truthy(c.role) && Truthy(c.obj) ==> KindOf(r.classification) == Some(ObjectKind))
  {
    ClassNames();
    GuessText(c);
  }

  /** Which class names contain "role" or "object". */
  lemma ClassNames()
    ensures Contains("role", "role") && Contains("object", "object")
    ensures !Contains("feature", "role") && !Contains("object", "role") && !Contains("unknown", "role")
    ensures !Contains("feature", "object") && !Contains("role", "object") && !Contains("unknown", "object")
  {
    assert OccursAt("role", "role", 0);
    assert OccursAt("object", "object", 0);
    MissingChar("feature", "role", 'o');
    MissingChar("object", "role", 'r');
    MissingChar("unknown", "role", 'r');
    MissingChar("feature", "object", 'o');
    MissingChar("role", "object", 'b');
    MissingChar("unknown", "object", 'b');
  }

  /** The guessed classification selects the same column `Or` would. */
  lemma GuessText(c: StoredConcept)
    requires !Truthy(c.classification)
    ensures TextFor(c, ClassOf(c)) == Or(c.action, Or(c.role, Or(c.obj, Some(""))))
  {
    ClassNames();
    if Truthy(c.action) {
      assert ClassOf(c) == "feature";
    } else if Truthy(c.role) {
      assert ClassOf(c) == "role";
    } else if Truthy(c.obj) {
      assert ClassOf(c) == "object";
    } else {
      assert ClassOf(c) == "unknown";
    }
  }

  function AsInRecord(r: LoadedRecord): InRecord {
    InRecord(r.usidText, r.text, r.classification)
  }

  // ----- analyzeUserStory/phase3/__init__.py and helpers -----

  /** `{'concept': name, 'synonyms': [name]}`; the name may be `None`. */
  datatype SynonymRecord = SynonymRecord(concept: Option<string>, synonyms: seq<Option<string>>)

  /** analyzeUserStory/phase3/helpers.py `generate_synonym_records`: one
      record per input, in order, nothing skipped. */
  function PlaceholderSynonyms(names: seq<Option<string>>): (r: seq<SynonymRecord>)
    ensures |r| == |names|
    ensures forall i | 0 <= i < |names| :: r[i].concept == names[i] && r[i].synonyms == [names[i]]
  {
    seq(|names|, i requires 0 <= i < |names| => SynonymRecord(names[i], [names[i]]))
  }

  /** The truthy texts of the records, in order, with repeats. */
  function TruthyTexts(rs: seq<InRecord>): (r: seq<string>)
    ensures forall t | t in r :: t != "" && exists i | 0 <= i < |rs| :: rs[i].text == Some(t)
    ensures forall i | 0 <= i < |rs| && Truthy(rs[i].text) :: rs[i].text.value in r
  {
    if |rs| == 0 then []
    else
      var init := rs[..|rs| - 1];
      var r := TruthyTexts(init);
      var x := rs[|rs| - 1];
      assert forall i | 0 <= i < |init| :: init[i] == rs[i];
      if Truthy(x.text) then r + [x.text.value] else r
  }

  /** The positions of the records with a truthy text. */
  function TruthyAt(rs: seq<InRecord>): nat -> bool {
    (k: nat) => k < |rs| && Truthy(rs[k].text)
  }

  /** The truthy texts are those of the records with a truthy text, one per
      such record, in record order: the comprehension keeps order and repeats. */
  lemma TruthyTextsInOrder(rs: seq<InRecord>)
    ensures var q := Select(|rs|, TruthyAt(rs));
            |TruthyTexts(rs)| == |q| && forall i | 0 <= i < |q| :: rs[q[i]].text == Some(TruthyTexts(rs)[i])
  {
    TruthyTextsPrefix(rs, |rs|);
    assert rs[..|rs|] == rs;
  }

  lemma {:induction false} TruthyTextsPrefix(rs: seq<InRecord>, n: nat)
    requires n <= |rs|
    ensures var q := Select(n, TruthyAt(rs));
            |TruthyTexts(rs[..n])| == |q| && forall i | 0 <= i < |q| :: rs[q[i]].text == Some(TruthyTexts(rs[..n])[i])
  {
    if n > 0 {
      TruthyTextsPrefix(rs, n - 1);
      var keep := TruthyAt(rs);
      var pre := rs[..n];
      assert pre[..n - 1] == rs[..n - 1];
      assert pre[n - 1] == rs[n - 1];
      assert keep(n - 1) == Truthy(rs[n - 1].text);
    }
  }

  /** The package's `generate_synonym_records` call: a placeholder record
      for every truthy text. */
  function PackageRecords(rs: seq<InRecord>): (r: seq<SynonymRecord>)
    ensures forall sr | sr in r ::
              Truthy(sr.concept) && sr.synonyms == [sr.concept] && exists i | 0 <= i < |rs| :: rs[i].text == sr.concept
    ensures forall i | 0 <= i < |rs| && Truthy(rs[i].text) :: SynonymRecord(rs[i].text, [rs[i].text]) in r
  {
    var texts := TruthyTexts(rs);
    var names := seq(|texts|, k requires 0 <= k < |texts| => Some(texts[k]));
    var recs := PlaceholderSynonyms(names);
    forall sr | sr in recs
      ensures Truthy(sr.concept) && sr.synonyms == [sr.concept] && exists i | 0 <= i < |rs| :: rs[i].text == sr.concept
    {
      var k :| 0 <= k < |recs| && recs[k] == sr;
      assert texts[k] in texts;
    }
    forall i | 0 <= i < |rs| && Truthy(rs[i].text) ensures SynonymRecord(rs[i].text, [rs[i].text]) in recs {
      var k :| 0 <= k < |texts| && texts[k] == rs[i].text.value;
      assert recs[k] == SynonymRecord(rs[i].text, [rs[i].text]);
    }
    recs
  }

  datatype PackageOutput = PackageOutput(output: Output, synonymRecords: seq<SynonymRecord>)

  /** analyzeUserStory/phase3/__init__.py `process_wordnet`: placeholder
      synonym records for every truthy text, no pairs and no synonym map,
      and a story map holding an entry for every record's story. */
  function ProcessPackage(rs: seq<InRecord>): (r: PackageOutput)
    ensures r.output.pairwise == [] && r.output.synonyms == map[]
    ensures forall sr | sr in r.synonymRecords ::
              Truthy(sr.concept) && sr.synonyms == [sr.concept] && exists i | 0 <= i < |rs| :: rs[i].text == sr.concept
    ensures forall i | 0 <= i < |rs| && Truthy(rs[i].text) :: SynonymRecord(rs[i].text, [rs[i].text]) in r.synonymRecords
    ensures forall e :: e in r.output.svo <==> e in Svo(rs, false)
    ensures (r.output.userRoles, r.output.objects, r.output.verbs) == Lists(rs)
  {
    forall e { SvoVariantsAgree(rs, e); }
    var lists := Lists(rs);
    PackageOutput(Output(lists.0, lists.1, lists.2, Svo(rs, true), [], map[]), PackageRecords(rs))
  }
}
