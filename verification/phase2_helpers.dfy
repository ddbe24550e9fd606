/**
 * The Phase-2 helpers of both code paths: frequency counting over concept
 * dictionaries, attaching the counts, and the classification → column /
 * domain mapping used when a concept is persisted.
 *
 * A concept dictionary is modelled by the keys these helpers read; `None`
 * stands for a missing key or a `None` value (both read as `None` by
 * `dict.get`), `Field` for a key whose mere presence matters.
 */
module Phase2Helpers {
  import opened Wrappers
  import opened Strings

  datatype ConceptDict = ConceptDict(
    text: Option<string>,
    name: Option<string>,
    classification: Option<string>,
    frequency: Option<int>,
    dbId: Field<Option<int>>,
    userStoryDbId: Field<Option<int>>)

  /** `collections.Counter(keys)` as a map. */
  function Count(keys: seq<string>): (m: map<string, nat>)
    ensures forall k :: k in m <==> k in keys
    ensures forall k | k in m :: m[k] == multiset(keys)[k]
  {
    if |keys| == 0 then map[]
    else
      var init := keys[..|keys| - 1];
      var k := keys[|keys| - 1];
      assert keys == init + [k];
      var m := Count(init);
      m[k := (if k in m then m[k] else 0) + 1]
  }

  /** `c.get('text') or c.get('name')`: services/phase2/helpers.py. */
  function TextFirst(c: ConceptDict): Option<string> {
    Or(c.text, c.name)
  }

  /** `c.get('name') or c.get('text')`: analyzeUserStory/phase2/helpers.py. */
  function NameFirst(c: ConceptDict): Option<string> {
    Or(c.name, c.text)
  }

  /** The truthy keys of the records, in order; records without one are skipped. */
  function KeysOf(cs: seq<ConceptDict>, key: ConceptDict -> Option<string>): (r: seq<string>)
    ensures forall k :: k in r <==> k != "" && exists i | 0 <= i < |cs| :: key(cs[i]) == Some(k)
    ensures |r| <= |cs|
  {
    if |cs| == 0 then []
    else
      var rest := KeysOf(cs[1..], key);
      assert forall k :: (exists i | 0 <= i < |cs| :: key(cs[i]) == Some(k)) <==>
                         key(cs[0]) == Some(k) || exists i | 0 <= i < |cs[1..]| :: key(cs[1..][i]) == Some(k) by {
        forall k | exists i | 0 <= i < |cs| :: key(cs[i]) == Some(k)
          ensures key(cs[0]) == Some(k) || exists i | 0 <= i < |cs[1..]| :: key(cs[1..][i]) == Some(k)
        {
          var i :| 0 <= i < |cs| && key(cs[i]) == Some(k);
          if i > 0 { assert key(cs[1..][i - 1]) == Some(k); }
        }
      }
      (if Truthy(key(cs[0])) then [key(cs[0]).value] else []) + rest
  }

  /** `count_concept_frequency`: how many records carry each truthy key. */
  function CountFrequency(cs: seq<ConceptDict>, key: ConceptDict -> Option<string>): (m: map<string, nat>)
    ensures forall k :: k in m <==> k != "" && exists i | 0 <= i < |cs| :: key(cs[i]) == Some(k)
    ensures forall k | k in m :: m[k] == multiset(KeysOf(cs, key))[k] && m[k] >= 1
  {
    Count(KeysOf(cs, key))
  }

  /** Reference count: how many records have the key `k`. */
  function Occurrences(cs: seq<ConceptDict>, key: ConceptDict -> Option<string>, k: string): nat {
    if |cs| == 0 then 0
    else (if key(cs[0]) == Some(k) then 1 else 0) + Occurrences(cs[1..], key, k)
  }

  /** A non-empty key occurs in the key list once per record carrying it. */
  lemma {:induction false} KeysOfCount(cs: seq<ConceptDict>, key: ConceptDict -> Option<string>, k: string)
    requires k != ""
    ensures multiset(KeysOf(cs, key))[k] == Occurrences(cs, key, k)
  {
    if |cs| > 0 {
      KeysOfCount(cs[1..], key, k);
    }
  }

  /** `count_concept_frequency` maps each non-empty key to the number of
      records carrying it, and holds no other key. */
  lemma CountFrequencyCounts(cs: seq<ConceptDict>, key: ConceptDict -> Option<string>, k: string)
    ensures k in CountFrequency(cs, key) <==> k != "" && Occurrences(cs, key, k) > 0
    ensures k in CountFrequency(cs, key) ==> CountFrequency(cs, key)[k] == Occurrences(cs, key, k)
  {
    if k != "" {
      KeysOfCount(cs, key, k);
    }
  }

  /** Counting one more record adds one to its key and leaves the others. */
  lemma {:induction false} CountAppend(keys: seq<string>, k: string)
    ensures Count(keys + [k])[k] == (if k in Count(keys) then Count(keys)[k] else 0) + 1
    ensures forall j | j != k && j in Count(keys) :: j in Count(keys + [k]) && Count(keys + [k])[j] == Count(keys)[j]
  {
    assert (keys + [k])[..|keys|] == keys;
  }

  /** `frequencies.get(name, 0)`. */
  function Lookup(freq: map<string, nat>, name: Option<string>): (r: nat)
    ensures name.Some? && name.value in freq ==> r == freq[name.value]
    ensures !(name.Some? && name.value in freq) ==> r == 0
  {
    if name.Some? && name.value in freq then freq[name.value] else 0
  }

  /** services/phase2/helpers.py `attach_frequency_to_concepts`, applied to
      one record. */
  function AttachOne(c: ConceptDict, freq: map<string, nat>): (r: ConceptDict)
    ensures r.text == c.text && r.name == c.name && r.classification == c.classification && r.dbId == c.dbId
    ensures r.frequency == Some(Lookup(freq, TextFirst(c)) as int)
    ensures c.userStoryDbId.Absent? && c.dbId.Present? ==> r.userStoryDbId == c.dbId
    ensures !(c.userStoryDbId.Absent? && c.dbId.Present?) ==> r.userStoryDbId == c.userStoryDbId
  {
    var f := Some(Lookup(freq, TextFirst(c)) as int);
    if c.userStoryDbId.Absent? && c.dbId.Present? then c.(frequency := f, userStoryDbId := c.dbId)
    else c.(frequency := f)
  }

  /** services/phase2/helpers.py `attach_frequency_to_concepts`. */
  function AttachServices(cs: seq<ConceptDict>, freq: map<string, nat>): (r: seq<ConceptDict>)
    ensures |r| == |cs|
    ensures forall i | 0 <= i < |cs| :: r[i] == AttachOne(cs[i], freq)
  {
    seq(|cs|, i requires 0 <= i < |cs| => AttachOne(cs[i], freq))
  }

  /** Counting and attaching over the same list: a record with a truthy key
      gets the number of records sharing that key, any other record 0. */
  lemma AttachServicesCounts(cs: seq<ConceptDict>, i: nat)
    requires i < |cs|
    ensures var r := AttachServices(cs, CountFrequency(cs, TextFirst))[i];
            r.frequency == Some(if Truthy(TextFirst(cs[i])) then Occurrences(cs, TextFirst, TextFirst(cs[i]).value) else 0)
  {
    if Truthy(TextFirst(cs[i])) {
      var k := TextFirst(cs[i]).value;
      assert TextFirst(cs[i]) == Some(k);
      CountFrequencyCounts(cs, TextFirst, k);
    } else if TextFirst(cs[i]).Some? {
      CountFrequencyCounts(cs, TextFirst, "");
    }
  }

  /** A record's own key is always counted, so after counting and attaching
      over the same list every keyed record has frequency at least 1. */
  lemma AttachedFrequencyPositive(cs: seq<ConceptDict>, i: nat)
    requires i < |cs| && Truthy(TextFirst(cs[i]))
    ensures AttachServices(cs, CountFrequency(cs, TextFirst))[i].frequency.value >= 1
  {
    var k := TextFirst(cs[i]).value;
    assert TextFirst(cs[i]) == Some(k);
  }

  /** analyzeUserStory/phase2/helpers.py `attach_frequency_to_concepts`:
      only `frequency` changes. */
  function AttachAnalyze(cs: seq<ConceptDict>, freq: map<string, nat>): (r: seq<ConceptDict>)
    ensures |r| == |cs|
    ensures forall i | 0 <= i < |cs| :: r[i].(frequency := cs[i].frequency) == cs[i]
    ensures forall i | 0 <= i < |cs| :: r[i].frequency == Some(Lookup(freq, NameFirst(cs[i])) as int)
  {
    seq(|cs|, i requires 0 <= i < |cs| => cs[i].(frequency := Some(Lookup(freq, NameFirst(cs[i])) as int)))
  }

  /** As for the services variant, keyed by `name` first. */
  lemma AttachAnalyzeCounts(cs: seq<ConceptDict>, i: nat)
    requires i < |cs|
    ensures var r := AttachAnalyze(cs, CountFrequency(cs, NameFirst))[i];
            r.frequency == Some(if Truthy(NameFirst(cs[i])) then Occurrences(cs, NameFirst, NameFirst(cs[i]).value) else 0)
  {
    if Truthy(NameFirst(cs[i])) {
      var k := NameFirst(cs[i]).value;
      assert NameFirst(cs[i]) == Some(k);
      CountFrequencyCounts(cs, NameFirst, k);
    } else if NameFirst(cs[i]).Some? {
      CountFrequencyCounts(cs, NameFirst, "");
    }
  }

  // ----- services/phase2/helpers.py save_concepts -----

  datatype Domain = RoleDomain | ObjectDomain | FeatureDomain

  datatype ConceptRow = ConceptRow(term: string, isFeature: bool, frequency: int, domain: Option<Domain>)

  /** The domain label for a lower-cased classification. */
  function DomainOf(cls: string): (r: Option<Domain>)
    ensures r == Some(RoleDomain) <==> Contains(cls, "role")
    ensures r == Some(ObjectDomain) <==> !Contains(cls, "role") && Contains(cls, "object")
    ensures r == Some(FeatureDomain) <==> !Contains(cls, "role") && !Contains(cls, "object") && Contains(cls, "feature")
    ensures r == None <==> !Contains(cls, "role") && !Contains(cls, "object") && !Contains(cls, "feature")
  {
    if Contains(cls, "role") then Some(RoleDomain)
    else if Contains(cls, "object") then Some(ObjectDomain)
    else if Contains(cls, "feature") then Some(FeatureDomain)
    else None
  }

  /** The concept row persisted for one record, `None` when it has no name. */
  function ServicesRow(c: ConceptDict): (r: Option<ConceptRow>)
    ensures r.None? <==> !Truthy(TextFirst(c))
    ensures r.Some? ==> r.value.term == TextFirst(c).value && r.value.term != ""
    ensures r.Some? ==> (r.value.isFeature <==> Contains(Lower(OrEmpty(c.classification)), "feature"))
    ensures r.Some? ==> r.value.domain == DomainOf(Lower(OrEmpty(c.classification)))
    ensures r.Some? ==> r.value.frequency != 0
    ensures r.Some? && c.frequency.Some? && c.frequency.value != 0 ==> r.value.frequency == c.frequency.value
  {
    if !Truthy(TextFirst(c)) then None
    else
      var cls := Lower(OrEmpty(c.classification));
      var f := if c.frequency.Some? && c.frequency.value != 0 then c.frequency.value else 1;
      Some(ConceptRow(TextFirst(c).value, Contains(cls, "feature"), f, DomainOf(cls)))
  }

  /** A classification naming both a role and a feature is persisted as a
      role that is also flagged as a feature. */
  lemma RoleBeatsFeature(c: ConceptDict)
    requires Truthy(TextFirst(c))
    requires Contains(Lower(OrEmpty(c.classification)), "role")
    requires Contains(Lower(OrEmpty(c.classification)), "feature")
    ensures ServicesRow(c).value.domain == Some(RoleDomain) && ServicesRow(c).value.isFeature
  {
  }

  // ----- analyzeUserStory/phase2/helpers.py save_concepts -----

  datatype Column = ActionColumn | RoleColumn | ObjectColumn

  /** The column receiving the name, by case-sensitive substring, feature first. */
  function ColumnOf(cls: string): (r: Column)
    ensures r == RoleColumn <==> !Contains(cls, "feature") && Contains(cls, "role")
    ensures r == ObjectColumn <==> !Contains(cls, "feature") && !Contains(cls, "role") && Contains(cls, "object")
    ensures r == ActionColumn <==> Contains(cls, "feature") || (!Contains(cls, "role") && !Contains(cls, "object"))
  {
    if Contains(cls, "feature") then ActionColumn
    else if Contains(cls, "role") then RoleColumn
    else if Contains(cls, "object") then ObjectColumn
    else ActionColumn
  }

  datatype ColumnRow = ColumnRow(role: Option<string>, action: Option<string>, obj: Option<string>)

  /** The persisted row: a named record fills exactly one column, the one
      its classification selects, with its name; nothing else is written. */
  function AnalyzeRow(c: ConceptDict): (r: ColumnRow)
    ensures r.role.Some? ==> r.role == NameFirst(c)
    ensures r.action.Some? ==> r.action == NameFirst(c)
    ensures r.obj.Some? ==> r.obj == NameFirst(c)
    ensures NameFirst(c).Some? ==>
              (if r.role.Some? then 1 else 0) + (if r.action.Some? then 1 else 0) + (if r.obj.Some? then 1 else 0) == 1
    ensures NameFirst(c).Some? ==>
              var col := ColumnOf(OrEmpty(c.classification));
              (r.role.Some? <==> col == RoleColumn) && (r.action.Some? <==> col == ActionColumn)
              && (r.obj.Some? <==> col == ObjectColumn)
  {
    var n := NameFirst(c);
    match ColumnOf(OrEmpty(c.classification))
    case ActionColumn => ColumnRow(None, n, None)
    case RoleColumn => ColumnRow(n, None, None)
    case ObjectColumn => ColumnRow(None, None, n)
  }
}
