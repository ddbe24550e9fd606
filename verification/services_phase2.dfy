/**
 * services/phase2/__init__.py `Phase2.analyze_concepts`: expand each Phase-1
 * concept into Subject/Verb/Object records, count text frequencies, build the
 * object → verbs map, derive the important objects and the response rows.
 */
module ServicesPhase2 {
  import opened Wrappers
  import opened Strings
  import opened Sorting
  import opened Indices
  import opened Phase2Helpers

  /** A Phase-1 concept as the services code reads it (`dict.get`). */
  datatype StoryRow = StoryRow(
    dbId: Option<int>, usid: Option<int>, role: Option<string>, action: Option<string>, obj: Option<string>)

  datatype Kind = Subject | Verb | Object

  /** A record of the internal `final_output`; `usid` and `db_id` always agree. */
  datatype SvoRecord = SvoRecord(usid: Option<int>, text: string, kind: Kind, index: nat)

  /** `r.get("db_id") or r.get("usid")`. */
  function UsidOf(r: StoryRow): (u: Option<int>)
    ensures TruthyInt(r.dbId) ==> u == r.dbId
    ensures !TruthyInt(r.dbId) ==> u == r.usid
  {
    if TruthyInt(r.dbId) then r.dbId else r.usid
  }

  function Rank(k: Kind): nat {
    match k
    case Subject => 0
    case Verb => 1
    case Object => 2
  }

  /** The field a record of kind `k` is taken from. */
  function FieldOf(r: StoryRow, k: Kind): Option<string> {
    match k
    case Subject => r.role
    case Verb => r.action
    case Object => r.obj
  }

  /** The record of kind `k`, when its field is truthy. */
  function RecordIf(r: StoryRow, k: Kind): (rs: seq<SvoRecord>)
    ensures |rs| <= 1
    ensures Truthy(FieldOf(r, k)) ==> rs == [SvoRecord(UsidOf(r), FieldOf(r, k).value, k, 0)]
    ensures !Truthy(FieldOf(r, k)) ==> rs == []
  {
    if Truthy(FieldOf(r, k)) then [SvoRecord(UsidOf(r), FieldOf(r, k).value, k, 0)] else []
  }

  /** The records of one story, before numbering: subject, verb, object. */
  function StoryRecords(r: StoryRow): (rs: seq<SvoRecord>)
    ensures |rs| <= 3
    ensures forall x | x in rs :: x in RecordIf(r, x.kind)
  {
    var s := RecordIf(r, Subject);
    var v := RecordIf(r, Verb);
    var o := RecordIf(r, Object);
    forall x | x in s + v + o ensures x in RecordIf(r, x.kind) {
      if x in s { assert x.kind == Subject; }
      else if x in v { assert x.kind == Verb; }
      else { assert x.kind == Object; }
    }
    s + v + o
  }

  /** Each record of a story carries the story's id, index 0 and the
      non-empty text of the field of its kind. */
  lemma StoryRecordsSound(r: StoryRow)
    ensures forall x | x in StoryRecords(r) ::
              x.usid == UsidOf(r) && x.index == 0 && Some(x.text) == FieldOf(r, x.kind) && x.text != ""
  {
  }

  /** The records of a story come subject before verb before object, so each
      kind at most once. */
  lemma StoryRecordsOrder(r: StoryRow)
    ensures var rs := StoryRecords(r);
            forall a, b | 0 <= a < b < |rs| :: Rank(rs[a].kind) < Rank(rs[b].kind)
  {
    var s := RecordIf(r, Subject);
    var v := RecordIf(r, Verb);
    var o := RecordIf(r, Object);
    var rs := s + v + o;
    assert rs == StoryRecords(r);
    assert |s| <= 1 && |v| <= 1 && |o| <= 1;
    assert forall k | 0 <= k < |s| :: s[k].kind == Subject;
    assert forall k | 0 <= k < |v| :: v[k].kind == Verb;
    assert forall k | 0 <= k < |o| :: o[k].kind == Object;
    forall k | 0 <= k < |rs|
      ensures Rank(rs[k].kind) == (if k < |s| then 0 else if k < |s| + |v| then 1 else 2)
    {
      if k < |s| {
        assert rs[k] == s[k];
      } else if k < |s| + |v| {
        assert rs[k] == v[k - |s|];
      } else {
        assert rs[k] == o[k - |s| - |v|];
      }
    }
  }

  /** Every truthy field of the story gives a record. */
  lemma StoryRecordsComplete(r: StoryRow, kind: Kind)
    requires Truthy(FieldOf(r, kind))
    ensures SvoRecord(UsidOf(r), FieldOf(r, kind).value, kind, 0) in StoryRecords(r)
  {
    var x := SvoRecord(UsidOf(r), FieldOf(r, kind).value, kind, 0);
    assert x in RecordIf(r, kind);
  }

  /** All stories' records, in order, before numbering. */
  function Expand(rows: seq<StoryRow>): seq<SvoRecord> {
    if |rows| == 0 then [] else Expand(rows[..|rows| - 1]) + StoryRecords(rows[|rows| - 1])
  }

  /** Expansion works story by story: a batch expands to the concatenation
      of its parts. */
  lemma {:induction false} ExpandAppend(a: seq<StoryRow>, b: seq<StoryRow>)
    ensures Expand(a + b) == Expand(a) + Expand(b)
    decreases |b|
  {
    if |b| == 0 {
      assert a + b == a;
    } else {
      var init := b[..|b| - 1];
      var last := b[|b| - 1];
      InitOfAppend(a, b);
      ExpandLast(a + b);
      ExpandLast(b);
      ExpandAppend(a, init);
      ConcatAssoc(Expand(a), Expand(init), StoryRecords(last));
    }
  }

  lemma ExpandLast(rows: seq<StoryRow>)
    requires |rows| > 0
    ensures Expand(rows) == Expand(rows[..|rows| - 1]) + StoryRecords(rows[|rows| - 1])
  {
  }

  lemma InitOfAppend<T>(a: seq<T>, b: seq<T>)
    requires |b| > 0
    ensures (a + b)[..|a + b| - 1] == a + b[..|b| - 1] && (a + b)[|a + b| - 1] == b[|b| - 1]
  {
  }

  lemma ConcatAssoc<T>(x: seq<T>, y: seq<T>, z: seq<T>)
    ensures (x + y) + z == x + (y + z)
  {
  }

  function WithIndex(x: SvoRecord, i: nat): SvoRecord {
    x.(index := i)
  }

  /** `_generate_final_output`. */
  function FinalOutput(rows: seq<StoryRow>): (r: seq<SvoRecord>)
    ensures forall k | 0 <= k < |r| :: r[k].index == k + 1 && r[k].text != ""
  {
    ExpandTexts(rows);
    Numbered(Expand(rows), WithIndex)
  }

  lemma {:induction false} ExpandTexts(rows: seq<StoryRow>)
    ensures forall k | 0 <= k < |Expand(rows)| :: Expand(rows)[k].text != ""
    decreases |rows|
  {
    if |rows| > 0 {
      ExpandTexts(rows[..|rows| - 1]);
      StoryRecordsSound(rows[|rows| - 1]);
    }
  }

  /** The records of a batch are exactly its stories' records, each story's
      records together and in subject, verb, object order, numbered 1..n. */
  lemma FinalOutputOfStory(rows: seq<StoryRow>, r: StoryRow)
    ensures var before := |Expand(rows)|;
            var out := FinalOutput(rows + [r]);
            |out| == before + |StoryRecords(r)|
            && forall k | 0 <= k < |StoryRecords(r)| :: out[before + k] == StoryRecords(r)[k].(index := before + k + 1)
  {
    assert (rows + [r])[..|rows|] == rows;
  }

  // ----- frequency -----

  function TextsOf(recs: seq<SvoRecord>): (r: seq<string>)
    ensures |r| == |recs| && forall k | 0 <= k < |recs| :: r[k] == recs[k].text
  {
    seq(|recs|, k requires 0 <= k < |recs| => recs[k].text)
  }

  /** `count_concept_frequency(final_output)`: every record counts, whatever
      its kind. */
  function Frequency(recs: seq<SvoRecord>): (m: map<string, nat>)
    ensures forall t :: t in m <==> exists k | 0 <= k < |recs| :: recs[k].text == t
    ensures forall t | t in m :: m[t] == multiset(TextsOf(recs))[t]
  {
    var texts := TextsOf(recs);
    assert forall t :: t in texts <==> exists k | 0 <= k < |recs| :: recs[k].text == t by {
      forall t | t in texts ensures exists k | 0 <= k < |recs| :: recs[k].text == t {
        var k :| 0 <= k < |texts| && texts[k] == t;
      }
    }
    Count(texts)
  }

  /** A verb spelled like an object raises that object's frequency. */
  lemma VerbsCountTowardObjects(recs: seq<SvoRecord>, a: nat, b: nat)
    requires a < b < |recs| && recs[a].text == recs[b].text
    requires recs[a].kind == Verb && recs[b].kind == Object
    ensures Frequency(recs)[recs[b].text] >= 2
  {
    var texts := TextsOf(recs);
    var t := recs[b].text;
    assert texts == texts[..a] + [t] + texts[a + 1..b] + [t] + texts[b + 1..];
  }

  // ----- object → verbs -----

  /** `(r.get("object") or "").strip().lower()` and likewise for the action. */
  function ObjectKey(r: StoryRow): string {
    Lower(Strip(OrEmpty(r.obj)))
  }

  function VerbKey(r: StoryRow): string {
    Lower(Strip(OrEmpty(r.action)))
  }

  predicate Pairs(r: StoryRow) {
    ObjectKey(r) != "" && VerbKey(r) != ""
  }

  /** The normalised (object, verb) pair each story offers. */
  function PairsOf(rows: seq<StoryRow>): (ps: seq<(string, string)>)
    ensures |ps| == |rows| && forall i | 0 <= i < |rows| :: ps[i] == (ObjectKey(rows[i]), VerbKey(rows[i]))
  {
    seq(|rows|, i requires 0 <= i < |rows| => (ObjectKey(rows[i]), VerbKey(rows[i])))
  }

  /** `mapping.setdefault(obj, set()).add(verb)` over the pairs, skipping a
      pair with an empty side; each verb set is kept as its sorted list. */
  function VerbMap(ps: seq<(string, string)>): (m: map<string, seq<string>>)
    ensures forall o | o in m :: StrictlySorted(m[o])
  {
    if |ps| == 0 then map[]
    else
      var m := VerbMap(ps[..|ps| - 1]);
      var (o, v) := ps[|ps| - 1];
      if o != "" && v != "" then m[o := InsertDistinct(v, if o in m then m[o] else [])]
      else m
  }

  /** `_build_object_verbs_from_phase1`, with every verb set kept as its
      sorted list (the form the response returns). */
  function ObjectVerbs(rows: seq<StoryRow>): (m: map<string, seq<string>>)
    ensures forall o | o in m :: StrictlySorted(m[o])
  {
    VerbMap(PairsOf(rows))
  }

  /** Some pair has object `o` and a non-empty verb. */
  predicate HasObject(ps: seq<(string, string)>, o: string) {
    exists i | 0 <= i < |ps| :: ps[i].0 == o && o != "" && ps[i].1 != ""
  }

  /** Some pair is exactly (`o`, `v`) with both sides non-empty. */
  predicate HasPair(ps: seq<(string, string)>, o: string, v: string) {
    exists i | 0 <= i < |ps| :: ps[i] == (o, v) && o != "" && v != ""
  }

  lemma HasObjectLast(ps: seq<(string, string)>, o: string)
    requires |ps| > 0
    ensures var init, last := ps[..|ps| - 1], ps[|ps| - 1];
            HasObject(ps, o) <==> HasObject(init, o) || (last.0 == o && o != "" && last.1 != "")
  {
    var init := ps[..|ps| - 1];
    if HasObject(ps, o) {
      var i :| 0 <= i < |ps| && ps[i].0 == o && o != "" && ps[i].1 != "";
      if i < |init| { assert init[i] == ps[i]; }
    }
    if HasObject(init, o) {
      var i :| 0 <= i < |init| && init[i].0 == o && o != "" && init[i].1 != "";
      assert ps[i] == init[i];
    }
  }

  lemma HasPairLast(ps: seq<(string, string)>, o: string, v: string)
    requires |ps| > 0
    ensures var init, last := ps[..|ps| - 1], ps[|ps| - 1];
            HasPair(ps, o, v) <==> HasPair(init, o, v) || (last == (o, v) && o != "" && v != "")
  {
    var init := ps[..|ps| - 1];
    if HasPair(ps, o, v) {
      var i :| 0 <= i < |ps| && ps[i] == (o, v) && o != "" && v != "";
      if i < |init| { assert init[i] == ps[i]; }
    }
    if HasPair(init, o, v) {
      var i :| 0 <= i < |init| && init[i] == (o, v) && o != "" && v != "";
      assert ps[i] == init[i];
    }
  }

  lemma PairHasObject(ps: seq<(string, string)>, o: string, v: string)
    requires HasPair(ps, o, v)
    ensures HasObject(ps, o)
  {
    var i :| 0 <= i < |ps| && ps[i] == (o, v) && o != "" && v != "";
  }

  /** An object is a key exactly when some pair offers it with a non-empty
      verb, and its verbs are exactly the verbs it was paired with. */
  lemma {:induction false} VerbMapContents(ps: seq<(string, string)>)
    ensures forall o :: o in VerbMap(ps) <==> HasObject(ps, o)
    ensures forall o, v | o in VerbMap(ps) :: v in VerbMap(ps)[o] <==> HasPair(ps, o, v)
    decreases |ps|
  {
    if |ps| > 0 {
      var init := ps[..|ps| - 1];
      var last := ps[|ps| - 1];
      VerbMapContents(init);
      var m0 := VerbMap(init);
      var m := VerbMap(ps);
      forall o ensures o in m <==> HasObject(ps, o) {
        HasObjectLast(ps, o);
      }
      forall o, v | o in m ensures v in m[o] <==> HasPair(ps, o, v) {
        HasPairLast(ps, o, v);
        if o == last.0 && last.0 != "" && last.1 != "" {
          if o in m0 {
            assert m[o] == InsertDistinct(last.1, m0[o]);
          } else {
            assert m[o] == InsertDistinct(last.1, []);
            if HasPair(init, o, v) {
              PairHasObject(init, o, v);
            }
          }
        } else if last.0 != "" && last.1 != "" {
          assert o != last.0 && o in m0 && m[o] == m0[o];
        } else {
          assert m == m0;
        }
      }
    }
  }

  /** A story offers object `o` exactly when its normalised pair does. */
  lemma HasObjectOfRows(rows: seq<StoryRow>, o: string)
    ensures HasObject(PairsOf(rows), o) <==> exists i | 0 <= i < |rows| :: Pairs(rows[i]) && ObjectKey(rows[i]) == o
  {
    var ps := PairsOf(rows);
    if HasObject(ps, o) {
      var i :| 0 <= i < |ps| && ps[i].0 == o && o != "" && ps[i].1 != "";
      var (ok, vk) := (ObjectKey(rows[i]), VerbKey(rows[i]));
      assert ps[i] == (ok, vk);
      assert Pairs(rows[i]) && ok == o;
    }
    if exists i | 0 <= i < |rows| :: Pairs(rows[i]) && ObjectKey(rows[i]) == o {
      var i :| 0 <= i < |rows| && Pairs(rows[i]) && ObjectKey(rows[i]) == o;
      assert ps[i].0 == o && o != "" && ps[i].1 != "";
    }
  }

  /** A story offers the pair (`o`, `v`) exactly when its normalised pair is it. */
  lemma HasPairOfRows(rows: seq<StoryRow>, o: string, v: string)
    ensures HasPair(PairsOf(rows), o, v) <==>
            exists i | 0 <= i < |rows| :: Pairs(rows[i]) && ObjectKey(rows[i]) == o && VerbKey(rows[i]) == v
  {
    var ps := PairsOf(rows);
    if HasPair(ps, o, v) {
      var i :| 0 <= i < |ps| && ps[i] == (o, v) && o != "" && v != "";
      var (ok, vk) := (ObjectKey(rows[i]), VerbKey(rows[i]));
      assert ps[i] == (ok, vk);
      assert Pairs(rows[i]) && ok == o && vk == v;
    }
    if exists i | 0 <= i < |rows| :: Pairs(rows[i]) && ObjectKey(rows[i]) == o && VerbKey(rows[i]) == v {
      var i :| 0 <= i < |rows| && Pairs(rows[i]) && ObjectKey(rows[i]) == o && VerbKey(rows[i]) == v;
      assert ps[i] == (o, v) && o != "" && v != "";
    }
  }

  /** The object → verbs map of the stories: an object is a key exactly when
      some story pairs it with a non-empty verb, and its verbs are exactly
      the verbs it was paired with. */
  lemma ObjectVerbsContents(rows: seq<StoryRow>)
    ensures forall o :: o in ObjectVerbs(rows) <==>
              exists i | 0 <= i < |rows| :: Pairs(rows[i]) && ObjectKey(rows[i]) == o
    ensures forall o, v | o in ObjectVerbs(rows) :: v in ObjectVerbs(rows)[o] <==>
              exists i | 0 <= i < |rows| :: Pairs(rows[i]) && ObjectKey(rows[i]) == o && VerbKey(rows[i]) == v
  {
    VerbMapContents(PairsOf(rows));
    forall o { HasObjectOfRows(rows, o); }
    forall o, v { HasPairOfRows(rows, o, v); }
  }


  /** Every key and verb of the map is stripped, lower-cased and non-empty. */
  lemma ObjectVerbsNormalized(rows: seq<StoryRow>, o: string)
    requires o in ObjectVerbs(rows)
    ensures o != "" && Lower(o) == o
    ensures forall v | v in ObjectVerbs(rows)[o] :: v != "" && Lower(v) == v
  {
    ObjectVerbsContents(rows);
    var i :| 0 <= i < |rows| && Pairs(rows[i]) && ObjectKey(rows[i]) == o;
    LowerIdempotent(Strip(OrEmpty(rows[i].obj)));
    forall v | v in ObjectVerbs(rows)[o] ensures v != "" && Lower(v) == v {
      var j :| 0 <= j < |rows| && Pairs(rows[j]) && ObjectKey(rows[j]) == o && VerbKey(rows[j]) == v;
      LowerIdempotent(Strip(OrEmpty(rows[j].action)));
    }
  }

  // ----- important objects -----

  const ImportantThreshold: nat := 3

  datatype Important = Important(obj: string, frequency: nat, verbs: seq<string>)

  /** `frequency` as attached: the count of the record's text, or 0. */
  function FreqOf(freq: map<string, nat>, t: string): nat {
    if t in freq then freq[t] else 0
  }

  predicate IsImportant(recs: seq<SvoRecord>, freq: map<string, nat>, k: nat)
    requires k < |recs|
  {
    recs[k].kind == Object && FreqOf(freq, recs[k].text) >= ImportantThreshold
  }

  function ImportantEntry(r: SvoRecord, freq: map<string, nat>, ov: map<string, seq<string>>): Important {
    var key := Lower(r.text);
    Important(r.text, FreqOf(freq, r.text), if key in ov then ov[key] else [])
  }

  /** `(-frequency, object)` ordering. */
  predicate Before(a: Important, b: Important) {
    a.frequency > b.frequency || (a.frequency == b.frequency && Less(a.obj, b.obj))
  }

  predicate ImportantSorted(s: seq<Important>) {
    forall i, j | 0 <= i < j < |s| :: !Before(s[j], s[i])
  }

  lemma BeforeTransitive(a: Important, b: Important, c: Important)
    requires Before(a, b) && Before(b, c)
    ensures Before(a, c)
  {
    if a.frequency == b.frequency && b.frequency == c.frequency {
      LessTransitive(a.obj, b.obj, c.obj);
    }
  }

  lemma BeforeAsymmetric(a: Important, b: Important)
    requires Before(a, b)
    ensures !Before(b, a)
  {
    if a.frequency == b.frequency {
      LessAsymmetric(a.obj, b.obj);
    }
  }

  lemma ConsSorted(a: Important, s: seq<Important>)
    requires ImportantSorted(s)
    requires forall y | y in s :: !Before(y, a)
    ensures ImportantSorted([a] + s)
  {
    var r := [a] + s;
    forall i, j | 0 <= i < j < |r| ensures !Before(r[j], r[i]) {
      if i == 0 {
        assert r[j] == s[j - 1];
        assert r[j] in s;
      } else {
        assert r[i] == s[i - 1] && r[j] == s[j - 1];
      }
    }
  }

  lemma TailSorted(s: seq<Important>)
    requires |s| > 0 && ImportantSorted(s)
    ensures ImportantSorted(s[1..])
  {
    forall i, j | 0 <= i < j < |s| - 1 ensures !Before(s[1..][j], s[1..][i]) {
      assert s[1..][j] == s[j + 1] && s[1..][i] == s[i + 1];
    }
  }

  /** Stable insertion: `x` goes before the first element it strictly precedes. */
  function InsertImportant(x: Important, s: seq<Important>): (r: seq<Important>)
    requires ImportantSorted(s)
    ensures ImportantSorted(r)
    ensures multiset(r) == multiset(s) + multiset{x}
  {
    if |s| == 0 || Before(x, s[0]) then
      forall y | y in s ensures !Before(y, x) {
        var j :| 0 <= j < |s| && s[j] == y;
        if j == 0 {
          BeforeAsymmetric(x, s[0]);
        } else if Before(s[j], x) {
          BeforeTransitive(s[j], x, s[0]);
        }
      }
      ConsSorted(x, s);
      [x] + s
    else
      TailSorted(s);
      var t := InsertImportant(x, s[1..]);
      forall y | y in t ensures !Before(y, s[0]) {
        assert y in multiset(t);
        if y != x {
          assert y in s[1..];
        }
      }
      ConsSorted(s[0], t);
      assert s == [s[0]] + s[1..];
      [s[0]] + t
  }

  /** `sorted(imp, key=lambda x: (-x['frequency'], x['object']))`. */
  function SortImportant(xs: seq<Important>): (r: seq<Important>)
    ensures ImportantSorted(r)
    ensures multiset(r) == multiset(xs)
  {
    if |xs| == 0 then []
    else
      assert xs == xs[..|xs| - 1] + [xs[|xs| - 1]];
      InsertImportant(xs[|xs| - 1], SortImportant(xs[..|xs| - 1]))
  }

  /** The positions of the Object records with frequency at least 3. */
  function ImportantIdx(recs: seq<SvoRecord>, freq: map<string, nat>): (q: seq<nat>)
    ensures forall k: nat :: k in q <==> k < |recs| && IsImportant(recs, freq, k)
    ensures forall i | 0 <= i < |q| :: q[i] < |recs| && IsImportant(recs, freq, q[i])
    ensures Increasing(q)
  {
    var q := Select(|recs|, (k: nat) => k < |recs| && IsImportant(recs, freq, k));
    assert forall i | 0 <= i < |q| :: q[i] in q;
    q
  }

  /** The unsorted `imp` list: one entry per qualifying record, in order,
      not de-duplicated by text. */
  function Candidates(recs: seq<SvoRecord>, freq: map<string, nat>, ov: map<string, seq<string>>): (r: seq<Important>)
    ensures var q := ImportantIdx(recs, freq);
            |r| == |q| && forall i | 0 <= i < |q| :: r[i] == ImportantEntry(recs[q[i]], freq, ov)
    ensures forall i | 0 <= i < |r| :: r[i].frequency >= ImportantThreshold
  {
    var q := ImportantIdx(recs, freq);
    seq(|q|, i requires 0 <= i < |q| => ImportantEntry(recs[q[i]], freq, ov))
  }

  /** The important objects: the candidates, sorted by frequency descending
      and then text ascending. */
  function ImportantObjects(recs: seq<SvoRecord>, freq: map<string, nat>, ov: map<string, seq<string>>): (r: seq<Important>)
    ensures ImportantSorted(r)
    ensures multiset(r) == multiset(Candidates(recs, freq, ov))
    ensures forall e | e in r :: e.frequency >= ImportantThreshold
  {
    var c := Candidates(recs, freq, ov);
    var r := SortImportant(c);
    assert forall e | e in r :: e in c by {
      forall e | e in r ensures e in c {
        assert e in multiset(r);
      }
    }
    r
  }

  // ----- response rows -----

  /** `Provides(r, u)`: story `r` has a truthy id `u` and a truthy role. */
  predicate Provides(r: StoryRow, u: int) {
    TruthyInt(UsidOf(r)) && UsidOf(r).value == u && Truthy(r.role)
  }

  /** `m` maps exactly the ids some row provides, each to the role of the
      first row providing it. */
  ghost predicate FirstRoles(rows: seq<StoryRow>, m: map<int, string>) {
    (forall u :: u in m <==> exists i | 0 <= i < |rows| :: Provides(rows[i], u))
    && forall u | u in m :: exists i | 0 <= i < |rows| ::
         Provides(rows[i], u) && m[u] == rows[i].role.value && forall j | 0 <= j < i :: !Provides(rows[j], u)
  }

  /** `role_by_usid`: the first truthy role seen for each truthy id. */
  function RoleByUsid(rows: seq<StoryRow>): (m: map<int, string>)
    ensures forall u :: u in m <==> exists i | 0 <= i < |rows| :: Provides(rows[i], u)
    ensures forall u | u in m :: exists i | 0 <= i < |rows| ::
              Provides(rows[i], u) && m[u] == rows[i].role.value && forall j | 0 <= j < i :: !Provides(rows[j], u)
  {
    if |rows| == 0 then map[]
    else
      var init := rows[..|rows| - 1];
      var last := rows[|rows| - 1];
      var m := RoleByUsid(init);
      var m' := if TruthyInt(UsidOf(last)) && Truthy(last.role) && UsidOf(last).value !in m then
                  m[UsidOf(last).value := last.role.value]
                else m;
      RoleByUsidStep(rows, m, m');
      m'
  }

  /** One more row keeps `FirstRoles`: a new id gets that row's role, a known
      id keeps its first role. */
  lemma RoleByUsidStep(rows: seq<StoryRow>, m: map<int, string>, m': map<int, string>)
    requires |rows| > 0 && FirstRoles(rows[..|rows| - 1], m)
    requires var last := rows[|rows| - 1];
             m' == if TruthyInt(UsidOf(last)) && Truthy(last.role) && UsidOf(last).value !in m then
                     m[UsidOf(last).value := last.role.value]
                   else m
    ensures FirstRoles(rows, m')
  {
    var init := rows[..|rows| - 1];
    forall u ensures u in m' <==> exists i | 0 <= i < |rows| :: Provides(rows[i], u) {
      RoleKeysStep(rows, m, m', u);
    }
    forall u | u in m' ensures exists i | 0 <= i < |rows| ::
              Provides(rows[i], u) && m'[u] == rows[i].role.value && forall j | 0 <= j < i :: !Provides(rows[j], u)
    {
      RoleFirstStep(rows, m, m', u);
    }
  }

  lemma RoleKeysStep(rows: seq<StoryRow>, m: map<int, string>, m': map<int, string>, u: int)
    requires |rows| > 0 && FirstRoles(rows[..|rows| - 1], m)
    requires var last := rows[|rows| - 1];
             m' == if TruthyInt(UsidOf(last)) && Truthy(last.role) && UsidOf(last).value !in m then
                     m[UsidOf(last).value := last.role.value]
                   else m
    ensures u in m' <==> exists i | 0 <= i < |rows| :: Provides(rows[i], u)
  {
    var init := rows[..|rows| - 1];
    if exists i | 0 <= i < |rows| :: Provides(rows[i], u) {
      var i :| 0 <= i < |rows| && Provides(rows[i], u);
      if i < |init| { assert init[i] == rows[i]; }
    }
    if u in m {
      var i :| 0 <= i < |init| && Provides(init[i], u);
      assert rows[i] == init[i];
    }
  }

  lemma RoleFirstStep(rows: seq<StoryRow>, m: map<int, string>, m': map<int, string>, u: int)
    requires |rows| > 0 && FirstRoles(rows[..|rows| - 1], m)
    requires var last := rows[|rows| - 1];
             m' == if TruthyInt(UsidOf(last)) && Truthy(last.role) && UsidOf(last).value !in m then
                     m[UsidOf(last).value := last.role.value]
                   else m
    requires u in m'
    ensures exists i | 0 <= i < |rows| ::
              Provides(rows[i], u) && m'[u] == rows[i].role.value && forall j | 0 <= j < i :: !Provides(rows[j], u)
  {
    var init := rows[..|rows| - 1];
    var n := |rows| - 1;
    var last := rows[n];
    if u in m {
      var i :| 0 <= i < n && Provides(init[i], u) && m[u] == init[i].role.value
               && forall j | 0 <= j < i :: !Provides(init[j], u);
      assert rows[i] == init[i];
      forall j | 0 <= j < i ensures !Provides(rows[j], u) {
        assert rows[j] == init[j];
      }
    } else {
      assert Provides(last, u) && m'[u] == last.role.value;
      forall j | 0 <= j < n ensures !Provides(rows[j], u) {
        assert rows[j] == init[j];
      }
    }
  }

  datatype ResponseRow = ResponseRow(indices: int, textUserRole: string, textObject: string, featureFlag: int, valueFlag: int)

  /** `1 if is_feature else 0` and its complement. */
  function Flags(isFeature: bool): (r: (int, int))
    ensures r.0 + r.1 == 1 && 0 <= r.0 <= 1
    ensures r.0 == 1 <==> isFeature
  {
    if isFeature then (1, 0) else (0, 1)
  }

  predicate Responds(recs: seq<SvoRecord>, k: nat)
    requires k < |recs|
  {
    recs[k].kind == Object && TruthyInt(recs[k].usid)
  }

  /** The positions of the Object records with a truthy id. */
  function RespondingIdx(recs: seq<SvoRecord>): (q: seq<nat>)
    ensures forall k: nat :: k in q <==> k < |recs| && Responds(recs, k)
    ensures forall i | 0 <= i < |q| :: q[i] < |recs| && Responds(recs, q[i])
    ensures Increasing(q)
  {
    var q := Select(|recs|, (k: nat) => k < |recs| && Responds(recs, k));
    assert forall i | 0 <= i < |q| :: q[i] in q;
    q
  }

  /** One response row per Object record with a truthy id; the records carry
      no `is_feature`, so every row is a value row. */
  function ResponseRows(recs: seq<SvoRecord>, roles: map<int, string>): (r: seq<ResponseRow>)
    ensures var q := RespondingIdx(recs);
            |r| == |q| && forall i | 0 <= i < |q| ::
              var rec := recs[q[i]];
              r[i].indices == rec.usid.value && r[i].textObject == rec.text
              && r[i].textUserRole == (if rec.usid.value in roles then roles[rec.usid.value] else "")
    ensures forall i | 0 <= i < |r| :: r[i].featureFlag + r[i].valueFlag == 1
    ensures forall i | 0 <= i < |r| :: r[i].featureFlag == 0 && r[i].valueFlag == 1
  {
    var q := RespondingIdx(recs);
    seq(|q|, i requires 0 <= i < |q| =>
      var rec := recs[q[i]];
      var u := rec.usid.value;
      var flags := Flags(false);
      ResponseRow(u, if u in roles then roles[u] else "", rec.text, flags.0, flags.1))
  }

  // ----- analyze_concepts -----

  datatype Analysis = Analysis(
    objectFrequency: map<string, nat>,
    finalOutput: seq<ResponseRow>,
    important: seq<Important>,
    objectVerbs: map<string, seq<string>>,
    persisted: seq<Option<ConceptRow>>)

  /** The concept rows written for the internal records: they carry no
      classification, so none gets a domain or the feature mark. */
  function Persisted(recs: seq<SvoRecord>, freq: map<string, nat>): (r: seq<Option<ConceptRow>>)
    ensures |r| == |recs|
    ensures forall k | 0 <= k < |r| :: r[k].None? <==> recs[k].text == ""
    ensures forall k | 0 <= k < |r| && r[k].Some? ::
              r[k].value.term == recs[k].text && r[k].value.domain == None && !r[k].value.isFeature
              && r[k].value.frequency == (if FreqOf(freq, recs[k].text) == 0 then 1 else FreqOf(freq, recs[k].text))
  {
    assert Lower("") == "";
    seq(|recs|, k requires 0 <= k < |recs| =>
      ServicesRow(ConceptDict(Some(recs[k].text), None, None, Some(FreqOf(freq, recs[k].text)), Present(recs[k].usid), Present(recs[k].usid))))
  }

  function AnalyzeConcepts(rows: seq<StoryRow>): (r: Analysis)
    ensures r.objectFrequency == Frequency(FinalOutput(rows))
    ensures ImportantSorted(r.important)
  {
    var recs := FinalOutput(rows);
    var freq := Frequency(recs);
    var ov := ObjectVerbs(rows);
    Analysis(freq, ResponseRows(recs, RoleByUsid(rows)), ImportantObjects(recs, freq, ov), ov, Persisted(recs, freq))
  }

  /** Every response row is a value row, since nothing sets `is_feature`;
      every verb list is sorted. */
  lemma AnalyzeConceptsRows(rows: seq<StoryRow>)
    ensures var r := AnalyzeConcepts(rows);
            (forall i | 0 <= i < |r.finalOutput| :: r.finalOutput[i].featureFlag == 0 && r.finalOutput[i].valueFlag == 1)
            && (forall o | o in r.objectVerbs :: StrictlySorted(r.objectVerbs[o]))
  {
  }

  lemma AnalyzeConceptsPersisted(rows: seq<StoryRow>)
    ensures var r := AnalyzeConcepts(rows);
            |r.persisted| == |FinalOutput(rows)| && forall k | 0 <= k < |r.persisted| :: r.persisted[k].Some?
  {
    var recs := FinalOutput(rows);
    assert forall k | 0 <= k < |recs| :: recs[k].text != "";
  }
}
