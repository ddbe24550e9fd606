/**
 * What every Phase-3 variant does with the Phase-2 `final_output` records:
 * the distinct concept texts, the role/object/verb lists, and the regrouping
 * of the records into one subject/verb/object entry per story.
 *
 * The Python code collects these through `list(set(...))`, whose order is
 * unspecified; the model keeps first-occurrence order and states only
 * membership and distinctness about it.
 */
module Phase3Records {
  import opened Wrappers
  import opened Strings
  import opened Indices

  /** A Phase-2 output record as Phase 3 reads it; a missing `usid_text` or
      `concept_and_domain` reads as "" (the code's defaults). */
  datatype InRecord = InRecord(usidText: string, text: Option<string>, classification: string)

  predicate Distinct<T(==)>(s: seq<T>) {
    forall a, b | 0 <= a < b < |s| :: s[a] != s[b]
  }

  /** The distinct elements, in order of first occurrence. */
  function Dedup(xs: seq<string>): (r: seq<string>)
    ensures Distinct(r)
    ensures forall x :: x in r <==> x in xs
    ensures |r| <= |xs|
  {
    if |xs| == 0 then []
    else
      var r := Dedup(xs[..|xs| - 1]);
      var x := xs[|xs| - 1];
      assert forall y :: y in xs <==> y in xs[..|xs| - 1] || y == x;
      if x in r then r else r + [x]
  }

  /** The truthy texts of the records that `keep` selects, in order. */
  function TextsWhere(rs: seq<InRecord>, keep: InRecord -> bool): (r: seq<string>)
    ensures forall t :: t in r <==> t != "" && exists i | 0 <= i < |rs| :: keep(rs[i]) && rs[i].text == Some(t)
  {
    if |rs| == 0 then []
    else
      var init := rs[..|rs| - 1];
      var last := rs[|rs| - 1];
      var r := TextsWhere(init, keep);
      assert forall t :: (exists i | 0 <= i < |rs| :: keep(rs[i]) && rs[i].text == Some(t)) <==>
                         (exists i | 0 <= i < |init| :: keep(init[i]) && init[i].text == Some(t)) || (keep(last) && last.text == Some(t)) by {
        forall t | exists i | 0 <= i < |rs| :: keep(rs[i]) && rs[i].text == Some(t)
          ensures (exists i | 0 <= i < |init| :: keep(init[i]) && init[i].text == Some(t)) || (keep(last) && last.text == Some(t))
        {
          var i :| 0 <= i < |rs| && keep(rs[i]) && rs[i].text == Some(t);
          if i < |init| { assert init[i] == rs[i]; }
        }
        forall t | exists i | 0 <= i < |init| :: keep(init[i]) && init[i].text == Some(t)
          ensures exists i | 0 <= i < |rs| :: keep(rs[i]) && rs[i].text == Some(t)
        {
          var i :| 0 <= i < |init| && keep(init[i]) && init[i].text == Some(t);
          assert rs[i] == init[i];
        }
      }
      if keep(last) && Truthy(last.text) then r + [last.text.value] else r
  }

  /** `list(set(...))` of the truthy texts of the selected records. */
  function DistinctTexts(rs: seq<InRecord>, keep: InRecord -> bool): (r: seq<string>)
    ensures Distinct(r)
    ensures forall t :: t in r <==> t != "" && exists i | 0 <= i < |rs| :: keep(rs[i]) && rs[i].text == Some(t)
  {
    Dedup(TextsWhere(rs, keep))
  }

  /** Every record: `_get_concepts_from_phase2_output`. */
  function AnyRecord(r: InRecord): bool { true }

  /** `"role" in concept_and_domain`. */
  function RoleRecord(r: InRecord): bool { Contains(r.classification, "role") }

  /** `"object" in concept_and_domain`. */
  function ObjectRecord(r: InRecord): bool { Contains(r.classification, "object") }

  /** `concept_and_domain == "feature"`. */
  function VerbRecord(r: InRecord): bool { r.classification == "feature" }

  /** The distinct truthy texts of all records. */
  function Concepts(rs: seq<InRecord>): (r: seq<string>)
    ensures Distinct(r)
    ensures forall t :: t in r <==> t != "" && exists i | 0 <= i < |rs| :: rs[i].text == Some(t)
  {
    var r := DistinctTexts(rs, AnyRecord);
    assert forall i | 0 <= i < |rs| :: AnyRecord(rs[i]);
    r
  }

  // ----- regrouping by story -----

  datatype SvoKind = SubjectKind | VerbKind | ObjectKind

  /** Which field of its story a record writes: role first, then object
      (both by substring), then exactly "feature"; `None` writes nothing. */
  function KindOf(cls: string): (k: Option<SvoKind>)
    ensures k == Some(SubjectKind) <==> Contains(cls, "role")
    ensures k == Some(ObjectKind) <==> !Contains(cls, "role") && Contains(cls, "object")
    ensures k == Some(VerbKind) <==> !Contains(cls, "role") && !Contains(cls, "object") && cls == "feature"
  {
    if Contains(cls, "role") then Some(SubjectKind)
    else if Contains(cls, "object") then Some(ObjectKind)
    else if cls == "feature" then Some(VerbKind)
    else None
  }

  /** The story id of a record: the text before the first `:`, stripped. */
  function UsidKey(r: InRecord): string {
    Strip(BeforeFirst(r.usidText, ":"))
  }

  /** One `story_map` value; the fields hold whatever `record.get("text")`
      returned, so a `None` text can land in one. */
  datatype Entry = Entry(subject: Option<string>, verb: Option<string>, obj: Option<string>, usid: string)

  function Blank(k: string): Entry {
    Entry(Some(""), Some(""), Some(""), k)
  }

  function FieldOf(e: Entry, kind: SvoKind): Option<string> {
    match kind
    case SubjectKind => e.subject
    case VerbKind => e.verb
    case ObjectKind => e.obj
  }

  function Write(e: Entry, kind: SvoKind, text: Option<string>): (r: Entry)
    ensures FieldOf(r, kind) == text && r.usid == e.usid
    ensures forall other | other != kind :: FieldOf(r, other) == FieldOf(e, other)
  {
    match kind
    case SubjectKind => e.(subject := text)
    case VerbKind => e.(verb := text)
    case ObjectKind => e.(obj := text)
  }

  /** The story map: its keys in insertion order and its values. */
  datatype Table = Table(order: seq<string>, entries: map<string, Entry>)

  ghost predicate WellFormed(t: Table) {
    Distinct(t.order)
    && (forall k :: k in t.entries <==> k in t.order)
    && (forall k | k in t.entries :: t.entries[k].usid == k)
  }

  /** What the story map needs of a record: its story id, the field it
      writes (if any) and its text. */
  datatype Step = Step(key: string, kind: Option<SvoKind>, text: Option<string>)

  function StepOf(r: InRecord): Step {
    Step(UsidKey(r), KindOf(r.classification), r.text)
  }

  function Steps(rs: seq<InRecord>): (ss: seq<Step>)
    ensures |ss| == |rs| && forall i | 0 <= i < |rs| :: ss[i] == StepOf(rs[i])
  {
    seq(|rs|, i requires 0 <= i < |rs| => StepOf(rs[i]))
  }

  /** Does a record make an entry for its story? With `every` (the
      `setdefault` of analyzeUserStory/phase3/__init__.py) any record does;
      otherwise (the `defaultdict` of phase3.py) only one that writes. */
  predicate Creates(s: Step, every: bool) {
    every || s.kind.Some?
  }

  /** The story map after the records, in order. */
  function Build(ss: seq<Step>, every: bool): (t: Table)
    ensures WellFormed(t)
  {
    if |ss| == 0 then Table([], map[])
    else
      var t := Build(ss[..|ss| - 1], every);
      var s := ss[|ss| - 1];
      var k := s.key;
      if !Creates(s, every) then t
      else
        var e := if k in t.entries then t.entries[k] else Blank(k);
        var e' := match s.kind
                  case Some(kind) => Write(e, kind, s.text)
                  case None => e;
        assert k !in t.entries ==> k !in t.order;
        Table(if k in t.entries then t.order else t.order + [k], t.entries[k := e'])
  }

  /** Reference definition: the text of the last record of story `k` that
      writes field `kind`, if any. */
  function LastWrite(ss: seq<Step>, k: string, kind: SvoKind): Option<Option<string>> {
    if |ss| == 0 then None
    else
      var s := ss[|ss| - 1];
      if s.key == k && s.kind == Some(kind) then Some(s.text)
      else LastWrite(ss[..|ss| - 1], k, kind)
  }

  /** The field value the last write leaves: its text, or "" without one. */
  function Expected(ss: seq<Step>, k: string, kind: SvoKind): Option<string> {
    match LastWrite(ss, k, kind)
    case Some(t) => t
    case None => Some("")
  }

  /** A story has an entry exactly when one of its records creates it. */
  lemma {:induction false} BuildKeys(ss: seq<Step>, every: bool, k: string)
    ensures k in Build(ss, every).entries <==> exists i | 0 <= i < |ss| :: ss[i].key == k && Creates(ss[i], every)
    decreases |ss|
  {
    if |ss| > 0 {
      var init := ss[..|ss| - 1];
      BuildKeys(init, every, k);
      if exists i | 0 <= i < |ss| :: ss[i].key == k && Creates(ss[i], every) {
        var i :| 0 <= i < |ss| && ss[i].key == k && Creates(ss[i], every);
        if i < |init| { assert init[i] == ss[i]; }
      }
      if exists i | 0 <= i < |init| :: init[i].key == k && Creates(init[i], every) {
        var i :| 0 <= i < |init| && init[i].key == k && Creates(init[i], every);
        assert ss[i] == init[i];
      }
    }
  }

  /** The last write wins: every field of every story holds the text of the
      story's last record of that kind, or "" when there is none. */
  lemma {:induction false} BuildFields(ss: seq<Step>, every: bool, k: string, kind: SvoKind)
    requires k in Build(ss, every).entries
    ensures FieldOf(Build(ss, every).entries[k], kind) == Expected(ss, k, kind)
    decreases |ss|
  {
    var init := ss[..|ss| - 1];
    var s := ss[|ss| - 1];
    var t := Build(init, every);
    var e := Build(ss, every).entries[k];
    if s.key != k || !Creates(s, every) {
      assert k in t.entries && e == t.entries[k];
      assert LastWrite(ss, k, kind) == LastWrite(init, k, kind);
      BuildFields(init, every, k, kind);
    } else if s.kind == Some(kind) {
      assert LastWrite(ss, k, kind) == Some(s.text);
    } else if k in t.entries {
      assert FieldOf(e, kind) == FieldOf(t.entries[k], kind);
      assert LastWrite(ss, k, kind) == LastWrite(init, k, kind);
      BuildFields(init, every, k, kind);
    } else {
      assert FieldOf(e, kind) == Some("");
      assert LastWrite(ss, k, kind) == LastWrite(init, k, kind);
      if LastWrite(init, k, kind).Some? {
        LastWriteCreates(init, k, kind);
        BuildKeys(init, every, k);
        assert false;
      }
    }
  }

  /** A story whose records never write any field keeps an all-empty entry. */
  lemma UnwrittenIsBlank(ss: seq<Step>, every: bool, k: string)
    requires k in Build(ss, every).entries
    requires forall kind: SvoKind :: LastWrite(ss, k, kind).None?
    ensures Build(ss, every).entries[k] == Blank(k)
  {
    var e := Build(ss, every).entries[k];
    BuildFields(ss, every, k, SubjectKind);
    BuildFields(ss, every, k, VerbKind);
    BuildFields(ss, every, k, ObjectKind);
    assert FieldOf(e, SubjectKind) == Some("") && FieldOf(e, VerbKind) == Some("") && FieldOf(e, ObjectKind) == Some("");
  }

  predicate NonEmpty(e: Entry) {
    Truthy(e.subject) || Truthy(e.verb) || Truthy(e.obj)
  }

  /** `[v for v in story_map.values() if v["subject"] or v["verb"] or v["object"]]`. */
  function Values(order: seq<string>, entries: map<string, Entry>): (r: seq<Entry>)
    requires forall k | k in order :: k in entries
    ensures forall x | x in r :: NonEmpty(x) && exists j | 0 <= j < |order| :: entries[order[j]] == x
    ensures forall j | 0 <= j < |order| && NonEmpty(entries[order[j]]) :: entries[order[j]] in r
  {
    if |order| == 0 then []
    else
      var init := order[..|order| - 1];
      var k := order[|order| - 1];
      var r := Values(init, entries);
      assert forall j | 0 <= j < |init| :: init[j] == order[j];
      if NonEmpty(entries[k]) then r + [entries[k]] else r
  }

  /** Whether the story at position `j` of the map order has a non-empty entry. */
  function NonEmptyAt(order: seq<string>, entries: map<string, Entry>): nat -> bool {
    (j: nat) => j < |order| && order[j] in entries && NonEmpty(entries[order[j]])
  }

  /** The values keep map order: they are the entries of the stories at the
      positions with a non-empty entry, one per position, in order. */
  lemma ValuesInOrder(order: seq<string>, entries: map<string, Entry>)
    requires forall k | k in order :: k in entries
    ensures var q := Select(|order|, NonEmptyAt(order, entries));
            |Values(order, entries)| == |q|
            && forall i | 0 <= i < |q| :: Values(order, entries)[i] == entries[order[q[i]]]
  {
    ValuesPrefix(order, entries, |order|);
    assert order[..|order|] == order;
  }

  lemma {:induction false} ValuesPrefix(order: seq<string>, entries: map<string, Entry>, n: nat)
    requires n <= |order|
    requires forall k | k in order :: k in entries
    ensures forall k | k in order[..n] :: k in entries
    ensures var q := Select(n, NonEmptyAt(order, entries));
            |Values(order[..n], entries)| == |q|
            && forall i | 0 <= i < |q| :: Values(order[..n], entries)[i] == entries[order[q[i]]]
  {
    assert forall k | k in order[..n] :: k in order;
    if n > 0 {
      ValuesPrefix(order, entries, n - 1);
      var pre := order[..n];
      assert pre[..n - 1] == order[..n - 1];
      assert pre[n - 1] == order[n - 1];
      assert NonEmptyAt(order, entries)(n - 1) == NonEmpty(entries[order[n - 1]]);
    }
  }

  /** The `subject_verb_object` list: the non-empty story entries. */
  function Svo(rs: seq<InRecord>, every: bool): (r: seq<Entry>)
    ensures forall e | e in r :: NonEmpty(e)
  {
    var t := Build(Steps(rs), every);
    Values(t.order, t.entries)
  }

  lemma SvoMember(ss: seq<Step>, every: bool, e: Entry)
    ensures var t := Build(ss, every);
            e in Values(t.order, t.entries) <==> NonEmpty(e) && e.usid in t.entries && t.entries[e.usid] == e
  {
    var t := Build(ss, every);
    if NonEmpty(e) && e.usid in t.entries && t.entries[e.usid] == e {
      var j :| 0 <= j < |t.order| && t.order[j] == e.usid;
    }
    if e in Values(t.order, t.entries) {
      var j :| 0 <= j < |t.order| && t.entries[t.order[j]] == e;
      assert t.entries[t.order[j]].usid == t.order[j];
    }
  }

  /** The two ways of creating entries give the same stories, only perhaps in
      another order: an entry made by a record that writes nothing stays
      blank and is dropped. */
  lemma SvoVariantsAgree(rs: seq<InRecord>, e: Entry)
    ensures e in Svo(rs, false) <==> e in Svo(rs, true)
  {
    var ss := Steps(rs);
    var k := e.usid;
    SvoMember(ss, false, e);
    SvoMember(ss, true, e);
    var f := Build(ss, false);
    var t := Build(ss, true);
    BuildKeys(ss, false, k);
    BuildKeys(ss, true, k);
    if k in f.entries {
      var i :| 0 <= i < |ss| && ss[i].key == k && Creates(ss[i], false);
      assert Creates(ss[i], true);
      SameEntry(ss, k);
    } else if k in t.entries && NonEmpty(e) && t.entries[k] == e {
      forall kind: SvoKind ensures LastWrite(ss, k, kind).None? {
        if LastWrite(ss, k, kind).Some? {
          LastWriteCreates(ss, k, kind);
        }
      }
      UnwrittenIsBlank(ss, true, k);
    }
  }

  /** A story present in both maps has the same entry in both. */
  lemma SameEntry(ss: seq<Step>, k: string)
    requires k in Build(ss, false).entries && k in Build(ss, true).entries
    ensures Build(ss, false).entries[k] == Build(ss, true).entries[k]
  {
    var a := Build(ss, false).entries[k];
    var b := Build(ss, true).entries[k];
    BuildFields(ss, false, k, SubjectKind);
    BuildFields(ss, true, k, SubjectKind);
    BuildFields(ss, false, k, VerbKind);
    BuildFields(ss, true, k, VerbKind);
    BuildFields(ss, false, k, ObjectKind);
    BuildFields(ss, true, k, ObjectKind);
    assert FieldOf(a, SubjectKind) == FieldOf(b, SubjectKind);
    assert FieldOf(a, VerbKind) == FieldOf(b, VerbKind);
    assert FieldOf(a, ObjectKind) == FieldOf(b, ObjectKind);
  }

  /** A story with a write has a record that creates its entry. */
  lemma {:induction false} LastWriteCreates(ss: seq<Step>, k: string, kind: SvoKind)
    requires LastWrite(ss, k, kind).Some?
    ensures exists i | 0 <= i < |ss| :: ss[i].key == k && Creates(ss[i], false)
    decreases |ss|
  {
    var s := ss[|ss| - 1];
    if s.key == k && s.kind == Some(kind) {
      assert Creates(ss[|ss| - 1], false);
    } else {
      var init := ss[..|ss| - 1];
      LastWriteCreates(init, k, kind);
      var i :| 0 <= i < |init| && init[i].key == k && Creates(init[i], false);
      assert ss[i] == init[i];
    }
  }
}
