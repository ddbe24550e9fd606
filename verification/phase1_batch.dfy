/**
 * `Phase1.process_text`: run the extractor over every non-blank story, in
 * order, and collect the sorted distinct roles, actions and objects.
 *
 * The four copies differ only in the extractor, in how a field becomes a
 * string (`v.lower().strip() if v else ""` or `v or ""`) and in where the id
 * comes from ("US_" plus the zero-padded position in phase1.py, a uuid
 * elsewhere — modelled as the oracle `idOf`).
 */
module Phase1Batch {
  import opened Wrappers
  import opened Indices
  import opened Strings
  import opened Sorting
  import opened DependencyParse
  import opened ActionRules
  import opened Extraction

  datatype StoryConcept = StoryConcept(
    id: string, dbId: Option<int>, originalText: string, role: string, action: string, obj: string)

  datatype Batch = Batch(concepts: seq<StoryConcept>, roles: seq<string>, actions: seq<string>, objects: seq<string>)

  /** How one copy of `process_text` turns stories into concepts. */
  datatype Flavor = Flavor(
    extract: string -> Result<Triple, ExtractError>,
    finish: Option<string> -> string,
    idOf: nat -> string,
    dbIdOf: nat -> Option<int>)


  /** `v.lower().strip() if v else ""`. */
  function LowerOrEmpty(v: Option<string>): (r: string)
    ensures Normalized(r)
    ensures r == OrEmpty(Normalize(v))
  {
    match Normalize(v)
    case Some(s) => s
    case None => ""
  }

  /** The positions of the stories that are not blank, in order. */
  function NonBlank(stories: seq<string>): (r: seq<nat>)
    ensures forall j: nat :: j in r <==> j < |stories| && !Blank(stories[j])
    ensures forall k | 0 <= k < |r| :: r[k] < |stories|
    ensures Increasing(r)
  {
    Select(|stories|, (j: nat) => j < |stories| && !Blank(stories[j]))
  }

  function MakeConcept(fl: Flavor, i: nat, story: string, t: Triple): StoryConcept {
    StoryConcept(fl.idOf(i), fl.dbIdOf(i), Strip(story), fl.finish(t.role), fl.finish(t.action), fl.finish(t.obj))
  }

  /** The story extracts without error. */
  predicate Extracts(fl: Flavor, story: string) {
    fl.extract(story).Ok?
  }

  /** The concept the story at position `i` gives. */
  function ConceptOf(fl: Flavor, stories: seq<string>, i: nat): StoryConcept
    requires i < |stories| && Extracts(fl, stories[i])
  {
    MakeConcept(fl, i, stories[i], fl.extract(stories[i]).value)
  }

  /** The loop body over the listed positions; the first failing story
      aborts the batch. */
  function ConceptsAt(fl: Flavor, stories: seq<string>, idx: seq<nat>): (r: Result<seq<StoryConcept>, ExtractError>)
    requires forall m | 0 <= m < |idx| :: idx[m] < |stories|
    ensures BatchOutcome(fl, stories, idx, r)
    decreases |idx|
  {
    if |idx| == 0 then Ok([])
    else
      var i := idx[0];
      match fl.extract(stories[i])
      case Err(e) =>
        assert !Extracts(fl, stories[idx[0]]);
        Err(e)
      case Ok(t) =>
        var rest := ConceptsAt(fl, stories, idx[1..]);
        assert idx == [i] + idx[1..];
        match rest
        case Err(e) =>
          ConceptsAtErr(fl, stories, i, idx[1..], e);
          Err(e)
        case Ok(cs) =>
          ConceptsAtOk(fl, stories, i, idx[1..], cs);
          Ok([ConceptOf(fl, stories, i)] + cs)
  }

  /** What the batch loop over `idx` gives: success exactly when every listed
      story extracts, then one concept per listed story, in order; otherwise
      the error of some listed story. */
  predicate BatchOutcome(fl: Flavor, stories: seq<string>, idx: seq<nat>, r: Result<seq<StoryConcept>, ExtractError>)
    requires forall m | 0 <= m < |idx| :: idx[m] < |stories|
  {
    (r.Ok? <==> forall k | 0 <= k < |idx| :: Extracts(fl, stories[idx[k]]))
    && (r.Ok? ==> |r.value| == |idx|)
    && (r.Ok? ==> forall k | 0 <= k < |idx| ::
          Extracts(fl, stories[idx[k]]) && r.value[k] == ConceptOf(fl, stories, idx[k]))
    && (r.Err? ==> exists k | 0 <= k < |idx| :: fl.extract(stories[idx[k]]) == Err(r.error))
  }

  /** A failure in the rest of the batch fails the whole batch. */
  lemma ConceptsAtErr(fl: Flavor, stories: seq<string>, i: nat, tl: seq<nat>, e: ExtractError)
    requires i < |stories| && forall m | 0 <= m < |tl| :: tl[m] < |stories|
    requires BatchOutcome(fl, stories, tl, Err(e))
    ensures BatchOutcome(fl, stories, [i] + tl, Err(e))
  {
    var idx := [i] + tl;
    var k :| 0 <= k < |tl| && fl.extract(stories[tl[k]]) == Err(e);
    assert idx[k + 1] == tl[k];
    assert !Extracts(fl, stories[idx[k + 1]]);
  }

  /** A first story that extracts puts its concept before the rest's. */
  lemma ConceptsAtOk(fl: Flavor, stories: seq<string>, i: nat, tl: seq<nat>, cs: seq<StoryConcept>)
    requires i < |stories| && Extracts(fl, stories[i]) && forall m | 0 <= m < |tl| :: tl[m] < |stories|
    requires BatchOutcome(fl, stories, tl, Ok(cs))
    ensures BatchOutcome(fl, stories, [i] + tl, Ok([ConceptOf(fl, stories, i)] + cs))
  {
    var idx := [i] + tl;
    var r := [ConceptOf(fl, stories, i)] + cs;
    forall k | 0 <= k < |idx|
      ensures Extracts(fl, stories[idx[k]]) && r[k] == ConceptOf(fl, stories, idx[k])
    {
      if k > 0 {
        assert idx[k] == tl[k - 1] && r[k] == cs[k - 1];
      }
    }
  }

  /** The non-empty values of one field, sorted and without duplicates. */
  function DistinctNonEmpty(vals: seq<string>): (r: seq<string>)
    ensures StrictlySorted(r)
    ensures forall y :: y in r <==> y != "" && y in vals
  {
    SortedSet(NonEmptyOf(vals))
  }

  function NonEmptyOf(vals: seq<string>): (r: seq<string>)
    ensures forall y :: y in r <==> y != "" && y in vals
  {
    if |vals| == 0 then []
    else (if vals[0] == "" then [] else [vals[0]]) + NonEmptyOf(vals[1..])
  }

  function Roles(cs: seq<StoryConcept>): (r: seq<string>)
    ensures |r| == |cs| && forall k | 0 <= k < |cs| :: r[k] == cs[k].role
    ensures forall y :: y in r <==> exists k | 0 <= k < |cs| :: cs[k].role == y
  {
    var r := seq(|cs|, k requires 0 <= k < |cs| => cs[k].role);
    assert forall k | 0 <= k < |cs| :: r[k] == cs[k].role;
    r
  }

  function Actions(cs: seq<StoryConcept>): (r: seq<string>)
    ensures |r| == |cs| && forall k | 0 <= k < |cs| :: r[k] == cs[k].action
    ensures forall y :: y in r <==> exists k | 0 <= k < |cs| :: cs[k].action == y
  {
    var r := seq(|cs|, k requires 0 <= k < |cs| => cs[k].action);
    assert forall k | 0 <= k < |cs| :: r[k] == cs[k].action;
    r
  }

  function Objects(cs: seq<StoryConcept>): (r: seq<string>)
    ensures |r| == |cs| && forall k | 0 <= k < |cs| :: r[k] == cs[k].obj
    ensures forall y :: y in r <==> exists k | 0 <= k < |cs| :: cs[k].obj == y
  {
    var r := seq(|cs|, k requires 0 <= k < |cs| => cs[k].obj);
    assert forall k | 0 <= k < |cs| :: r[k] == cs[k].obj;
    r
  }

  /** `process_text`, shared by all copies. */
  function ProcessText(fl: Flavor, stories: seq<string>): (r: Result<Batch, ExtractError>)
    ensures r.Ok? <==> forall k | 0 <= k < |NonBlank(stories)| :: Extracts(fl, stories[NonBlank(stories)[k]])
    ensures r.Ok? ==> |r.value.concepts| == |NonBlank(stories)|
    ensures r.Ok? ==> forall k | 0 <= k < |r.value.concepts| ::
              var i := NonBlank(stories)[k];
              fl.extract(stories[i]).Ok? && r.value.concepts[k] == MakeConcept(fl, i, stories[i], fl.extract(stories[i]).value)
    ensures r.Ok? ==> StrictlySorted(r.value.roles) && StrictlySorted(r.value.actions) && StrictlySorted(r.value.objects)
    ensures r.Ok? ==> forall y :: y in r.value.roles <==> y != "" && exists k | 0 <= k < |r.value.concepts| :: r.value.concepts[k].role == y
    ensures r.Ok? ==> forall y :: y in r.value.actions <==> y != "" && exists k | 0 <= k < |r.value.concepts| :: r.value.concepts[k].action == y
    ensures r.Ok? ==> forall y :: y in r.value.objects <==> y != "" && exists k | 0 <= k < |r.value.concepts| :: r.value.concepts[k].obj == y
  {
    match ConceptsAt(fl, stories, NonBlank(stories))
    case Err(e) => Err(e)
    case Ok(cs) =>
      var rs := Roles(cs);
      var acts := Actions(cs);
      var objs := Objects(cs);
      Ok(Batch(cs, DistinctNonEmpty(rs), DistinctNonEmpty(acts), DistinctNonEmpty(objs)))
  }

  /** A story that is blank after `strip` yields nothing: appending one leaves
      the batch unchanged. */
  lemma BlankStorySkipped(fl: Flavor, stories: seq<string>, blank: string)
    requires Blank(blank)
    ensures ProcessText(fl, stories + [blank]) == ProcessText(fl, stories)
  {
    var s2 := stories + [blank];
    var a := NonBlank(stories);
    var b := NonBlank(s2);
    assert forall j: nat :: j in b <==> j in a;
    IncreasingUnique(a, b);
    assert forall k | 0 <= k < |a| :: stories[a[k]] == s2[a[k]];
    ConceptsAtSame(fl, stories, s2, a);
  }

  lemma {:induction false} ConceptsAtSame(fl: Flavor, s1: seq<string>, s2: seq<string>, idx: seq<nat>)
    requires forall m | 0 <= m < |idx| :: idx[m] < |s1| && idx[m] < |s2| && s1[idx[m]] == s2[idx[m]]
    ensures ConceptsAt(fl, s1, idx) == ConceptsAt(fl, s2, idx)
    decreases |idx|
  {
    if |idx| > 0 {
      ConceptsAtSame(fl, s1, s2, idx[1..]);
    }
  }

  // ----- phase1.py -----

  const IdPrefix: string := "US_"

  /** `f"US_{i+1:03d}"`: "US_", then the decimal digits of `i + 1`,
      zero-padded to at least three. */
  function StoryId(i: nat): (r: string)
    ensures |r| >= 6 && r[..3] == IdPrefix && AllDigits(r[3..])
    ensures DigitValue(r[3..]) == i + 1
  {
    var d := ZeroPad(Digits(i + 1), 3);
    DigitsValue(i + 1);
    ZeroPadValue(Digits(i + 1), 3);
    assert (IdPrefix + d)[3..] == d;
    IdPrefix + d
  }

  /** Different positions give different ids, so the ids of a batch are
      distinct even though skipped blanks leave gaps. */
  lemma StoryIdInjective(i: nat, j: nat)
    requires StoryId(i) == StoryId(j)
    ensures i == j
  {
  }

  /** phase1.py: plain rules, lower/strip with `""` for none, "US_" ids,
      no database id. */
  function PlainFlavor(parse: string -> Doc): Flavor {
    Flavor((s: string) => PlainExtract(s, parse), LowerOrEmpty, StoryId, (i: nat) => None)
  }

  /** analyzeUserStory/phase1.py: override, then lower/strip; uuid ids. */
  function OverrideFlavor(parse: string -> Doc, narrate: string -> Option<Narration>, idOf: nat -> string): Flavor {
    Flavor((s: string) => OverrideExtract(s, parse, narrate(s)), LowerOrEmpty, idOf, (i: nat) => None)
  }

  /** analyzeUserStory/phase1/__init__.py: helper extractor (already
      normalised), `v or ""`, uuid ids, database ids. */
  function HelperFlavor(parse: string -> Doc, narrate: string -> Option<Narration>, idOf: nat -> string,
                        dbIdOf: nat -> int): Flavor {
    Flavor((s: string) => HelperExtract(s, parse, narrate(s)), OrEmpty, idOf, (i: nat) => Some(dbIdOf(i)))
  }

  /** services/phase1/__init__.py: services extractor, `v or ""`. */
  function ServicesFlavor(parse: string -> Doc, narrate: string -> Option<Narration>, idOf: nat -> string,
                          dbIdOf: nat -> int): Flavor {
    Flavor((s: string) => ServicesExtract(s, parse, narrate(s)), OrEmpty, idOf, (i: nat) => Some(dbIdOf(i)))
  }

  /** phase1.py: the `k`-th concept carries the id of its story's original
      position, its stripped text and normalised fields. */
  lemma PlainConceptShape(parse: string -> Doc, stories: seq<string>, k: nat)
    requires ProcessText(PlainFlavor(parse), stories).Ok?
    requires k < |ProcessText(PlainFlavor(parse), stories).value.concepts|
    ensures var c := ProcessText(PlainFlavor(parse), stories).value.concepts[k];
            var i := NonBlank(stories)[k];
            c.id == StoryId(i) && c.originalText == Strip(stories[i]) && !Blank(stories[i])
            && Normalized(c.role) && Normalized(c.action) && Normalized(c.obj)
  {
  }

  /** The ids of a phase1.py batch are pairwise distinct. */
  lemma PlainIdsDistinct(parse: string -> Doc, stories: seq<string>, k1: nat, k2: nat)
    requires ProcessText(PlainFlavor(parse), stories).Ok?
    requires k1 < k2 < |ProcessText(PlainFlavor(parse), stories).value.concepts|
    ensures ProcessText(PlainFlavor(parse), stories).value.concepts[k1].id
            != ProcessText(PlainFlavor(parse), stories).value.concepts[k2].id
  {
    var idx := NonBlank(stories);
    var cs := ProcessText(PlainFlavor(parse), stories).value.concepts;
    assert idx[k1] < idx[k2];
    if cs[k1].id == cs[k2].id {
      StoryIdInjective(idx[k1], idx[k2]);
    }
  }
}
