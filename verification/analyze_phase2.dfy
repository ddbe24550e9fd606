/**
 * The Phase 2 of the `analyzeUserStory` code path, in its two copies:
 * analyzeUserStory/phase2.py (an object that keeps its output between calls)
 * and analyzeUserStory/phase2/__init__.py (which resets it and counts
 * through the shared helpers). Both expand every Phase-1 concept into
 * feature/role/object records with feature and value flags.
 */
module AnalyzePhase2 {
  import opened Wrappers
  import opened Strings
  import opened Phase2Helpers
  import opened Indices

  /** A Phase-1 concept as this code reads it (`dict.get`). */
  datatype Concept = Concept(
    id: Option<string>, originalText: Option<string>, role: Option<string>, action: Option<string>, obj: Option<string>)

  // ----- frequency (analyzeUserStory/phase2.py) -----

  const Articles: set<string> := {"a", "an", "the"}

  /** `s.split(' ', 1)[-1] if s.split(' ', 1)[0] in ('a', 'an', 'the') else s`. */
  function DropArticle(s: string): (r: string)
    ensures |r| <= |s| && r == s[|s| - |r|..]
    ensures r != s ==> |r| + 2 <= |s| && s[..|s| - |r| - 1] in Articles && s[|s| - |r| - 1] == ' '
    ensures !Contains(s, " ") ==> r == s
  {
    if BeforeFirst(s, " ") in Articles then AfterFirst(s, " ") else s
  }

  /** A leading article word followed by a space is removed, whatever follows. */
  lemma DropArticleOf(w: string, t: string)
    requires w in Articles
    ensures DropArticle(w + " " + t) == t
  {
    var s := w + " " + t;
    assert OccursAt(s, " ", |w|);
    assert forall m | 0 <= m < |w| :: !OccursAt(s, " ", m) by {
      forall m | 0 <= m < |w| ensures !OccursAt(s, " ", m) {
        assert s[m] == w[m];
      }
    }
    var b := BeforeFirst(s, " ");
    assert |b| == |w|;
    assert b == s[..|w|] == w;
    assert s == b + " " + AfterFirst(s, " ");
    assert s[|w| + 1..] == t;
  }

  /** The keys one concept contributes: its role and its object, each with a
      leading article removed; actions never count. */
  function ConceptKeys(c: Concept): (ks: seq<string>)
    ensures |ks| <= 2
    ensures forall k :: k in ks <==> CountsAs(c, k)
  {
    (if Truthy(c.role) then [DropArticle(c.role.value)] else [])
    + (if Truthy(c.obj) then [DropArticle(c.obj.value)] else [])
  }

  predicate CountsAs(c: Concept, k: string) {
    (Truthy(c.role) && DropArticle(c.role.value) == k) || (Truthy(c.obj) && DropArticle(c.obj.value) == k)
  }

  /** The keys of all items, item by item, in order. */
  function Flatten<T>(xs: seq<T>, keys: T -> seq<string>): seq<string> {
    if |xs| == 0 then [] else Flatten(xs[..|xs| - 1], keys) + keys(xs[|xs| - 1])
  }

  lemma {:induction false} FlattenContents<T>(xs: seq<T>, keys: T -> seq<string>)
    ensures forall k :: k in Flatten(xs, keys) <==> exists i | 0 <= i < |xs| :: k in keys(xs[i])
    decreases |xs|
  {
    if |xs| > 0 {
      var init := xs[..|xs| - 1];
      FlattenContents(init, keys);
      forall k ensures k in Flatten(xs, keys) <==> exists i | 0 <= i < |xs| :: k in keys(xs[i]) {
        if exists i | 0 <= i < |xs| :: k in keys(xs[i]) {
          var i :| 0 <= i < |xs| && k in keys(xs[i]);
          if i < |init| { assert init[i] == xs[i]; }
        }
        if k in Flatten(init, keys) {
          var i :| 0 <= i < |init| && k in keys(init[i]);
          assert xs[i] == init[i];
        }
      }
    }
  }

  /** Every role and object of the batch, articles removed, in order. */
  function FrequencyKeys(cs: seq<Concept>): (ks: seq<string>)
    ensures forall k :: k in ks <==> exists i | 0 <= i < |cs| :: CountsAs(cs[i], k)
  {
    FlattenContents(cs, ConceptKeys);
    Flatten(cs, ConceptKeys)
  }

  /** `_calculate_object_frequency`: how often each role or object occurs,
      leading articles removed. */
  function ObjectFrequency(cs: seq<Concept>): (m: map<string, nat>)
    ensures forall k :: k in m <==> exists i | 0 <= i < |cs| :: CountsAs(cs[i], k)
    ensures forall k | k in m :: m[k] == multiset(FrequencyKeys(cs))[k] && m[k] >= 1
  {
    Count(FrequencyKeys(cs))
  }

  /** Two batches that differ only in their actions count the same. */
  lemma {:induction false} ActionsDoNotCount(cs: seq<Concept>, ds: seq<Concept>)
    requires |cs| == |ds|
    requires forall i | 0 <= i < |cs| :: cs[i].role == ds[i].role && cs[i].obj == ds[i].obj
    ensures ObjectFrequency(cs) == ObjectFrequency(ds)
  {
    FrequencyKeysSame(cs, ds);
  }

  lemma {:induction false} FrequencyKeysSame(cs: seq<Concept>, ds: seq<Concept>)
    requires |cs| == |ds|
    requires forall i | 0 <= i < |cs| :: cs[i].role == ds[i].role && cs[i].obj == ds[i].obj
    ensures Flatten(cs, ConceptKeys) == Flatten(ds, ConceptKeys)
    decreases |cs|
  {
    if |cs| > 0 {
      FrequencyKeysSame(cs[..|cs| - 1], ds[..|ds| - 1]);
    }
  }

  // ----- output records -----

  datatype Label = FeatureLabel | RoleLabel | ObjectLabel

  /** The `concept_and_domain` string of each label. */
  function Classification(l: Label): string {
    match l
    case FeatureLabel => "feature"
    case RoleLabel => "role (general)"
    case ObjectLabel => "object (general)"
  }

  function LabelRank(l: Label): nat {
    match l
    case FeatureLabel => 0
    case RoleLabel => 1
    case ObjectLabel => 2
  }

  /** One record of `final_output`. */
  datatype OutRecord = OutRecord(
    usidText: string, text: string, kind: Label, featureFlag: Option<int>, valueFlag: Option<int>, index: nat)

  /** `f"{usid}: {original_text}"`. */
  function UsidText(c: Concept): string {
    PyStr(c.id) + ": " + PyStr(c.originalText)
  }

  /** The text before the first `:` of a `usid_text` is the story id, unless
      the id itself holds a `:`. */
  lemma UsidTextId(c: Concept)
    ensures BeforeFirst(UsidText(c), ":") == PyStr(c.id) || Contains(PyStr(c.id), ":")
  {
    var t := UsidText(c);
    assert OccursAt(t, ":", |PyStr(c.id)|);
    assert Contains(t, ":");
    var b := BeforeFirst(t, ":");
    assert |b| <= |PyStr(c.id)|;
    assert !Contains(PyStr(c.id), ":") ==> |b| == |PyStr(c.id)| by {
      if |b| < |PyStr(c.id)| {
        assert OccursAt(PyStr(c.id), ":", |b|);
      }
    }
  }

  /** The field a record with label `l` is taken from. */
  function FieldOf(c: Concept, l: Label): Option<string> {
    match l
    case FeatureLabel => c.action
    case RoleLabel => c.role
    case ObjectLabel => c.obj
  }

  /** The flags of a label: features are (0, None), roles and objects (None, 1). */
  function FlagsOf(l: Label): (f: (Option<int>, Option<int>))
    ensures l == FeatureLabel <==> f.0 == Some(0)
    ensures l == FeatureLabel <==> f.1 == None
    ensures l != FeatureLabel <==> f == (None, Some(1))
  {
    if l == FeatureLabel then (Some(0), None) else (None, Some(1))
  }

  function RecordIf(c: Concept, l: Label): (rs: seq<OutRecord>)
    ensures |rs| <= 1
    ensures Truthy(FieldOf(c, l)) <==> |rs| == 1
  {
    if Truthy(FieldOf(c, l)) then
      var f := FlagsOf(l);
      [OutRecord(UsidText(c), FieldOf(c, l).value, l, f.0, f.1, 0)]
    else []
  }

  /** The records of one concept: each truthy field once, feature before
      role before object, all tagged with the story's `usid_text`. */
  function ConceptRecords(c: Concept): (rs: seq<OutRecord>)
    ensures forall k | 0 <= k < |rs| :: rs[k].usidText == UsidText(c) && rs[k].index == 0
    ensures forall k | 0 <= k < |rs| :: Some(rs[k].text) == FieldOf(c, rs[k].kind) && rs[k].text != ""
    ensures forall k | 0 <= k < |rs| :: (rs[k].featureFlag, rs[k].valueFlag) == FlagsOf(rs[k].kind)
  {
    var f := RecordIf(c, FeatureLabel);
    var r := RecordIf(c, RoleLabel);
    var o := RecordIf(c, ObjectLabel);
    var rs := f + r + o;
    assert forall k | 0 <= k < |rs| :: rs[k] in f || rs[k] in r || rs[k] in o;
    rs
  }

  /** Feature before role before object. */
  lemma ConceptRecordsOrder(c: Concept)
    ensures var rs := ConceptRecords(c);
            forall a, b | 0 <= a < b < |rs| :: LabelRank(rs[a].kind) < LabelRank(rs[b].kind)
  {
    var f := RecordIf(c, FeatureLabel);
    var r := RecordIf(c, RoleLabel);
    var o := RecordIf(c, ObjectLabel);
    var rs := f + r + o;
    assert rs == ConceptRecords(c);
    assert forall a, b | 0 <= a < b < |rs| :: (rs[a] in f && (rs[b] in r || rs[b] in o)) || (rs[a] in r && rs[b] in o);
  }

  /** A concept has a record of a label exactly when that field is truthy. */
  lemma ConceptRecordsComplete(c: Concept, l: Label)
    ensures Truthy(FieldOf(c, l)) <==> exists k | 0 <= k < |ConceptRecords(c)| :: ConceptRecords(c)[k].kind == l
  {
    var rs := ConceptRecords(c);
    if Truthy(FieldOf(c, l)) {
      var x := RecordIf(c, l)[0];
      assert x in rs;
    }
  }

  function Expand(cs: seq<Concept>): seq<OutRecord> {
    if |cs| == 0 then [] else Expand(cs[..|cs| - 1]) + ConceptRecords(cs[|cs| - 1])
  }

  function WithIndex(x: OutRecord, i: nat): OutRecord {
    x.(index := i)
  }

  // ----- the two analyze_concepts -----

  datatype State = State(objectFrequency: map<string, nat>, finalOutput: seq<OutRecord>)

  /** analyzeUserStory/phase2.py `analyze_concepts`: the new records are
      appended to those of earlier calls, and the whole list renumbered. */
  function AnalyzeKeeping(st: State, cs: seq<Concept>): (r: State)
    ensures r.objectFrequency == ObjectFrequency(cs)
    ensures |r.finalOutput| == |st.finalOutput| + |Expand(cs)|
    ensures forall k | 0 <= k < |st.finalOutput| :: r.finalOutput[k] == st.finalOutput[k].(index := k + 1)
    ensures forall k | 0 <= k < |Expand(cs)| ::
              r.finalOutput[|st.finalOutput| + k] == Expand(cs)[k].(index := |st.finalOutput| + k + 1)
  {
    State(ObjectFrequency(cs), Numbered(st.finalOutput + Expand(cs), WithIndex))
  }

  /** A Phase-1 concept seen as a Phase-2 dictionary: it has neither `name`
      nor `text` nor `concept_and_domain`, so none of its fields reach the
      helpers. Its `db_id`/`id` only names the story a row is saved under
      (analyzeUserStory/phase2/__init__.py:27), and the persisted column
      row does not carry the story, so `c` is not consulted. */
  function AsDict(c: Concept): ConceptDict {
    ConceptDict(None, None, None, None, Absent, Absent)
  }

  datatype Reset = Reset(objectFrequency: map<string, nat>, finalOutput: seq<OutRecord>, persisted: seq<ColumnRow>)

  /** analyzeUserStory/phase2/__init__.py `analyze_concepts`: the helpers
      count `name`/`text`, which Phase-1 concepts lack, so nothing is counted
      and every persisted concept row is empty; the output list starts
      afresh and is numbered 1..n. */
  function AnalyzeResetting(cs: seq<Concept>): (r: Reset)
    ensures r.objectFrequency == map[]
    ensures |r.persisted| == |cs| && forall i | 0 <= i < |cs| :: r.persisted[i] == ColumnRow(None, None, None)
    ensures |r.finalOutput| == |Expand(cs)|
    ensures forall k | 0 <= k < |r.finalOutput| :: r.finalOutput[k] == Expand(cs)[k].(index := k + 1)
  {
    var dicts := seq(|cs|, i requires 0 <= i < |cs| => AsDict(cs[i]));
    var freq := CountFrequency(dicts, NameFirst);
    assert forall k :: k !in freq by {
      forall k ensures k !in freq {
        assert forall i | 0 <= i < |dicts| :: NameFirst(dicts[i]) == None;
      }
    }
    var enriched := AttachAnalyze(dicts, freq);
    var persisted := seq(|enriched|, i requires 0 <= i < |enriched| => AnalyzeRow(enriched[i]));
    Reset(freq, Numbered(Expand(cs), WithIndex), persisted)
  }

  /** Calling the keeping variant twice on the same batch repeats every
      record: the second copy follows the first, with the same texts. */
  lemma KeepingRepeats(cs: seq<Concept>)
    ensures var once := AnalyzeKeeping(State(map[], []), cs);
            var twice := AnalyzeKeeping(once, cs);
            |twice.finalOutput| == 2 * |once.finalOutput|
            && forall k | 0 <= k < |once.finalOutput| ::
                 twice.finalOutput[k] == once.finalOutput[k]
                 && twice.finalOutput[|once.finalOutput| + k] == once.finalOutput[k].(index := |once.finalOutput| + k + 1)
  {
    var once := AnalyzeKeeping(State(map[], []), cs);
    var twice := AnalyzeKeeping(once, cs);
    var n := |once.finalOutput|;
    assert n == |Expand(cs)|;
    forall k | 0 <= k < n
      ensures twice.finalOutput[k] == once.finalOutput[k]
      ensures twice.finalOutput[n + k] == once.finalOutput[k].(index := n + k + 1)
    {
      assert once.finalOutput[k] == Expand(cs)[k].(index := k + 1);
      assert twice.finalOutput[k] == once.finalOutput[k].(index := k + 1);
      assert twice.finalOutput[n + k] == Expand(cs)[k].(index := n + k + 1);
    }
  }

  /** The resetting variant's output is the keeping variant's output when
      the latter starts empty. */
  lemma ResettingIsKeepingFromEmpty(cs: seq<Concept>)
    ensures AnalyzeResetting(cs).finalOutput == AnalyzeKeeping(State(map[], []), cs).finalOutput
  {
    assert [] + Expand(cs) == Expand(cs);
  }
}
