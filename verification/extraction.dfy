/**
 * `extract_components` in its four shapes, built from the parse rules, the
 * "so that" cut, the visual-narrator override and the final normalisation.
 *
 *  - PlainExtract: phase1.py `_extract_components` (cut, parse, rules).
 *  - OverrideExtract: analyzeUserStory/phase1.py `_extract_components`
 *    (PlainExtract, then the narrator override).
 *  - HelperExtract: analyzeUserStory/phase1/helpers.py `extract_components`
 *    (OverrideExtract, then lower-case and strip every field).
 *  - ServicesExtract: services/phase1/helpers.py `extract_components`
 *    (drop every `advcl` subtree, re-parse, prep/pobj role rule, override,
 *    normalise).
 *
 * The spaCy pipeline is the oracle `parse`; the visual narrator's answer is
 * the input `narration` (`None` when it raised).
 */
module Extraction {
  import opened Wrappers
  import opened Indices
  import opened Strings
  import opened DependencyParse
  import opened ActionRules
  import opened RoleRules

  datatype Triple = Triple(role: Option<string>, action: Option<string>, obj: Option<string>)

  /** The part of the visual narrator's dictionary the callers read. */
  datatype Narration = Narration(role: Option<string>, action: Option<string>, obj: Option<string>, confidence: real)

  /** The three groups of the user-story pattern when it matches. */
  datatype Groups = Groups(role: string, action: string, obj: string)

  const MatchConfidence: real := 0.9
  const FreeTextConfidence: real := 0.3
  const OverrideThreshold: real := 0.8

  const SoThat: string := "so that"

  // ----- visual narrator and override -----

  /** The confidence contract of `visual_narrator_processing`: a pattern match
      gives 0.9 and the stripped groups, anything else 0.3 and no fields. */
  function Narrate(m: Option<Groups>): (r: Narration)
    ensures r.confidence > OverrideThreshold <==> m.Some?
    ensures m.None? ==> r.role.None? && r.action.None? && r.obj.None?
    ensures m.Some? ==> r.role.Some? && r.action.Some? && r.obj.Some?
    ensures m.Some? ==> r.role.value == Strip(m.value.role) && r.action.value == Strip(m.value.action)
                        && r.obj.value == Strip(m.value.obj)
  {
    match m
    case Some(g) => Narration(Some(Strip(g.role)), Some(Strip(g.action)), Some(Strip(g.obj)), MatchConfidence)
    case None => Narration(None, None, None, FreeTextConfidence)
  }

  /** The override is consulted only for a narration above the threshold. */
  predicate Fires(n: Option<Narration>) {
    n.Some? && n.value.confidence > OverrideThreshold
  }

  /** `v.get(field) or current` for one field. */
  function Pick(fires: bool, offered: Option<string>, current: Option<string>): (r: Option<string>)
    ensures r == current || r == offered
    ensures fires && Truthy(offered) ==> r == offered
    ensures !(fires && Truthy(offered)) ==> r == current
  {
    if fires then Or(offered, current) else current
  }

  /** The narrator override, field by field. */
  function Override(t: Triple, n: Option<Narration>): (r: Triple)
    ensures !Fires(n) ==> r == t
    ensures Fires(n) && Truthy(n.value.role) ==> r.role == n.value.role
    ensures Fires(n) && Truthy(n.value.action) ==> r.action == n.value.action
    ensures Fires(n) && Truthy(n.value.obj) ==> r.obj == n.value.obj
    ensures !(Fires(n) && Truthy(n.value.role)) ==> r.role == t.role
    ensures !(Fires(n) && Truthy(n.value.action)) ==> r.action == t.action
    ensures !(Fires(n) && Truthy(n.value.obj)) ==> r.obj == t.obj
  {
    if Fires(n) then
      Triple(Pick(true, n.value.role, t.role), Pick(true, n.value.action, t.action), Pick(true, n.value.obj, t.obj))
    else t
  }

  /** Applying the same narration twice changes nothing more. */
  lemma OverrideIdempotent(t: Triple, n: Option<Narration>)
    ensures Override(Override(t, n), n) == Override(t, n)
  {
  }

  /** A free-text (unmatched) narration or a failed narrator never overrides. */
  lemma UnmatchedNeverOverrides(t: Triple, n: Option<Narration>)
    requires n == None || n == Some(Narrate(None))
    ensures Override(t, n) == t
  {
  }

  /** The object group of a match is empty in practice (the last lazy group of
      the pattern captures nothing), and an empty group never overrides. */
  lemma EmptyGroupKeepsRuleObject(t: Triple, g: Groups)
    requires AllSpace(g.obj)
    ensures Override(t, Some(Narrate(Some(g)))).obj == t.obj
  {
  }

  // ----- normalisation -----

  /** No upper-case ASCII letter and no surrounding whitespace. */
  predicate Normalized(s: string) {
    (forall i | 0 <= i < |s| :: !('A' <= s[i] <= 'Z'))
    && (s == [] || (!IsSpace(s[0]) && !IsSpace(s[|s| - 1])))
  }

  /** `v.lower().strip() if v else None`. */
  function Normalize(v: Option<string>): (r: Option<string>)
    ensures r.None? <==> !Truthy(v)
    ensures r.Some? ==> Normalized(r.value) && |r.value| <= |v.value|
    ensures r.Some? ==> (r.value == [] <==> AllSpace(v.value))
  {
    if Truthy(v) then
      LowerKeepsSpace(v.value);
      StripLowerNormalized(v.value);
      Some(Strip(Lower(v.value)))
    else None
  }

  /** `lower` changes no whitespace character and makes none. */
  lemma LowerKeepsSpace(s: string)
    ensures AllSpace(Lower(s)) <==> AllSpace(s)
  {
    var l := Lower(s);
    assert forall i | 0 <= i < |s| :: IsSpace(l[i]) == IsSpace(s[i]);
  }

  lemma StripLowerNormalized(s: string)
    ensures Normalized(Strip(Lower(s)))
  {
    var l := Lower(s);
    var r := Strip(l);
    LowerIdempotent(s);
    forall i | 0 <= i < |r| ensures !('A' <= r[i] <= 'Z') {
      assert r[i] in l;
    }
  }

  /** Normalising twice is normalising once, except for a whitespace-only
      value: it becomes `""`, which normalises to `None`. */
  lemma NormalizeIdempotent(v: Option<string>)
    requires Normalize(v) != Some("")
    ensures Normalize(Normalize(v)) == Normalize(v)
  {
    if Truthy(v) {
      var w := Strip(Lower(v.value));
      LowerIdempotent(v.value);
      assert Lower(w) == w;
      StripIdempotent(Lower(v.value));
    }
  }

  lemma WhitespaceValueNormalizesToEmpty()
    ensures Normalize(Some(" ")) == Some("")
    ensures Normalize(Normalize(Some(" "))) == None
  {
    assert IsSpace(' ');
    assert AllSpace(" ");
    var r := Normalize(Some(" "));
    assert r.Some? && r.value == [];
    assert !Truthy(Some(""));
  }

  function NormalizeTriple(t: Triple): (r: Triple)
    ensures r.role == Normalize(t.role) && r.action == Normalize(t.action) && r.obj == Normalize(t.obj)
  {
    Triple(Normalize(t.role), Normalize(t.action), Normalize(t.obj))
  }

  // ----- "as a/an" pipelines -----

  /** The parse the rule-based path sees: the stripped text before the first
      case-sensitive "so that". */
  function PrefixDoc(story: string, parse: string -> Doc): Doc {
    parse(Strip(BeforeFirst(story, SoThat)))
  }

  /** The role and action/object rules over one parse. */
  function Rules(doc: Doc, role: Option<string>): (r: Result<Triple, ExtractError>)
    ensures r.Err? <==> |doc| == 0
    ensures r.Ok? ==> r.value.role == role
    ensures r.Ok? ==> (r.value.action.Some? <==> MainVerb(doc).Some?)
    ensures r.Ok? && Truthy(r.value.action) ==> r.value.obj == VerbObject(doc, MainVerb(doc).value)
  {
    match FindActionAndObject(doc)
    case Err(e) => Err(e)
    case Ok(ao) => Ok(Triple(role, ao.action, ao.obj))
  }

  /** The field a narration that fires offers in place of the rule's, when
      that field is truthy; otherwise the rule's own. */
  function Chosen(n: Option<Narration>, offered: Option<string>, rule: Option<string>): Option<string> {
    if Fires(n) && Truthy(offered) then offered else rule
  }

  /** The fields a narration offers; none without a narration. */
  function Offered(n: Option<Narration>): Triple {
    if n.Some? then Triple(n.value.role, n.value.action, n.value.obj) else Triple(None, None, None)
  }

  /** Field by field, `t` holds what the narration chooses over `rule`. */
  predicate Merges(t: Triple, n: Option<Narration>, rule: Triple) {
    t.role == Chosen(n, Offered(n).role, rule.role)
    && t.action == Chosen(n, Offered(n).action, rule.action)
    && t.obj == Chosen(n, Offered(n).obj, rule.obj)
  }

  /** Field by field, `t` holds the normalised choice of the narration over `rule`. */
  predicate MergesNormalized(t: Triple, n: Option<Narration>, rule: Triple) {
    t.role == Normalize(Chosen(n, Offered(n).role, rule.role))
    && t.action == Normalize(Chosen(n, Offered(n).action, rule.action))
    && t.obj == Normalize(Chosen(n, Offered(n).obj, rule.obj))
  }

  /** Normalising a merged triple normalises each chosen field. */
  lemma NormalizedOverride(t: Triple, n: Option<Narration>)
    ensures MergesNormalized(NormalizeTriple(Override(t, n)), n, t)
  {
  }

  /** The rule results over a non-empty parse: the given role and the
      action and object of `find_action_and_object`. */
  function RuleTriple(doc: Doc, role: Option<string>): Triple
    requires |doc| > 0
  {
    var ao := FindActionAndObject(doc).value;
    Triple(role, ao.action, ao.obj)
  }

  /** phase1.py `_extract_components`: the "as a/an" role and the
      action/object rules over the prefix before "so that". */
  function PlainExtract(story: string, parse: string -> Doc): (r: Result<Triple, ExtractError>)
    ensures r.Err? <==> |PrefixDoc(story, parse)| == 0
    ensures r.Ok? ==> r.value.role == ArticleRole(PrefixDoc(story, parse))
    ensures r.Ok? ==> r.value == RuleTriple(PrefixDoc(story, parse), ArticleRole(PrefixDoc(story, parse)))
  {
    var doc := PrefixDoc(story, parse);
    Rules(doc, ArticleRole(doc))
  }

  /** analyzeUserStory/phase1.py `_extract_components`: rules, then override. */
  function OverrideExtract(story: string, parse: string -> Doc, n: Option<Narration>): (r: Result<Triple, ExtractError>)
    ensures r.Err? <==> |PrefixDoc(story, parse)| == 0
    ensures !Fires(n) ==> r == PlainExtract(story, parse)
    ensures r.Ok? ==> Merges(r.value, n, RuleTriple(PrefixDoc(story, parse), ArticleRole(PrefixDoc(story, parse))))
  {
    match PlainExtract(story, parse)
    case Err(e) => Err(e)
    case Ok(t) => Ok(Override(t, n))
  }

  /** analyzeUserStory/phase1/helpers.py `extract_components`. */
  function HelperExtract(story: string, parse: string -> Doc, n: Option<Narration>): (r: Result<Triple, ExtractError>)
    ensures r.Err? <==> |PrefixDoc(story, parse)| == 0
    ensures r.Ok? ==> forall f | f in {r.value.role, r.value.action, r.value.obj} && f.Some? :: Normalized(f.value)
    ensures r.Ok? ==> MergesNormalized(r.value, n, RuleTriple(PrefixDoc(story, parse), ArticleRole(PrefixDoc(story, parse))))
  {
    match OverrideExtract(story, parse, n)
    case Err(e) => Err(e)
    case Ok(t) => Ok(NormalizeTriple(t))
  }

  /** Text after the first "so that" never reaches the rules: a story and its
      prefix before "so that" extract the same triple. */
  lemma SoThatCut(p: string, q: string, parse: string -> Doc, n: Option<Narration>)
    requires forall m | 0 <= m < |p| :: !OccursAt(p + SoThat + q, SoThat, m)
    ensures PlainExtract(p + SoThat + q, parse) == PlainExtract(p, parse)
    ensures HelperExtract(p + SoThat + q, parse, n) == HelperExtract(p, parse, n)
  {
    SoThatPrefix(p, q);
  }

  /** The text before the first "so that" is `p`, which holds none itself. */
  lemma SoThatPrefix(p: string, q: string)
    requires forall m | 0 <= m < |p| :: !OccursAt(p + SoThat + q, SoThat, m)
    ensures BeforeFirst(p + SoThat + q, SoThat) == p
    ensures BeforeFirst(p, SoThat) == p
  {
    var s := p + SoThat + q;
    assert OccursAt(s, SoThat, |p|) by { assert s[|p|..|p| + |SoThat|] == SoThat; }
    PrefixFree(p, q);
  }

  lemma PrefixFree(p: string, q: string)
    requires forall m | 0 <= m < |p| :: !OccursAt(p + SoThat + q, SoThat, m)
    ensures !Contains(p, SoThat)
  {
    var s := p + SoThat + q;
    forall m | 0 <= m <= |p| ensures !OccursAt(p, SoThat, m) {
      if m + |SoThat| <= |p| {
        assert !OccursAt(s, SoThat, m);
        assert s[m..m + |SoThat|] == p[m..m + |SoThat|];
      }
    }
  }

  /** A field the matched pattern offers non-blank replaces the rule result,
      lower-cased and stripped. */
  lemma MatchedRoleWins(story: string, parse: string -> Doc, g: Groups)
    requires |PrefixDoc(story, parse)| > 0
    requires !AllSpace(g.role)
    ensures HelperExtract(story, parse, Some(Narrate(Some(g)))) ==
            Ok(NormalizeTriple(Override(PlainExtract(story, parse).value, Some(Narrate(Some(g))))))
    ensures HelperExtract(story, parse, Some(Narrate(Some(g)))).value.role == Some(Strip(Lower(Strip(g.role))))
  {
    assert Strip(g.role) != [];
  }

  // ----- services: advcl exclusion -----

  /** `j` lies in the subtree of some `advcl` token. */
  predicate UnderAdvcl(doc: Doc, j: nat)
    requires j < |doc|
  {
    exists a | 0 <= a < |doc| :: doc[a].dep == "advcl" && InSubtree(doc, j, a)
  }

  function AdvclTokens(doc: Doc): set<nat> {
    set a: nat | a < |doc| && doc[a].dep == "advcl"
  }

  function SubtreeSet(doc: Doc, i: nat): (r: set<nat>)
    requires i < |doc|
    ensures forall j: nat :: j in r <==> j < |doc| && InSubtree(doc, j, i)
  {
    set j: nat | j < |doc| && InSubtree(doc, j, i)
  }

  /** The exclusion loop: visiting tokens in order, a token already in the
      set adds its whole subtree. */
  function ExcludeFrom(doc: Doc, ex: set<nat>, i: nat): set<nat>
    requires i <= |doc|
    decreases |doc| - i
  {
    if i == |doc| then ex
    else if i in ex then ExcludeFrom(doc, ex + SubtreeSet(doc, i), i + 1)
    else ExcludeFrom(doc, ex, i + 1)
  }

  function Excluded(doc: Doc): set<nat> {
    ExcludeFrom(doc, AdvclTokens(doc), 0)
  }

  lemma InOwnSubtree(doc: Doc, i: nat)
    requires i < |doc|
    ensures InSubtree(doc, i, i)
  {
    assert Up(doc, i, 0) == i;
  }

  lemma {:induction false} ExcludeFromSound(doc: Doc, ex: set<nat>, i: nat)
    requires i <= |doc|
    requires forall j | j in ex :: j < |doc| && UnderAdvcl(doc, j)
    ensures ex <= ExcludeFrom(doc, ex, i)
    ensures forall j | j in ExcludeFrom(doc, ex, i) :: j < |doc| && UnderAdvcl(doc, j)
    ensures forall a | i <= a < |doc| && a in ex :: SubtreeSet(doc, a) <= ExcludeFrom(doc, ex, i)
    decreases |doc| - i
  {
    if i < |doc| {
      if i in ex {
        var a :| 0 <= a < |doc| && doc[a].dep == "advcl" && InSubtree(doc, i, a);
        forall j | j in SubtreeSet(doc, i) ensures UnderAdvcl(doc, j) {
          SubtreeTransitive(doc, j, i, a);
        }
        ExcludeFromSound(doc, ex + SubtreeSet(doc, i), i + 1);
      } else {
        ExcludeFromSound(doc, ex, i + 1);
      }
    }
  }

  /** A token is excluded exactly when it lies in the subtree of an `advcl`
      token: the loop's growing set adds nothing else and misses nothing. */
  lemma ExcludedExactly(doc: Doc)
    ensures forall j: nat :: j in Excluded(doc) <==> j < |doc| && UnderAdvcl(doc, j)
  {
    var ex := AdvclTokens(doc);
    forall j | j in ex ensures j < |doc| && UnderAdvcl(doc, j) {
      InOwnSubtree(doc, j);
    }
    ExcludeFromSound(doc, ex, 0);
    forall j: nat | j < |doc| && UnderAdvcl(doc, j) ensures j in Excluded(doc) {
      var a :| 0 <= a < |doc| && doc[a].dep == "advcl" && InSubtree(doc, j, a);
      assert a in ex;
      assert j in SubtreeSet(doc, a);
    }
  }

  /** The tokens that survive the exclusion, in document order. */
  function Kept(doc: Doc): (r: seq<nat>)
    ensures forall j: nat :: j in r <==> j < |doc| && !UnderAdvcl(doc, j)
    ensures forall k | 0 <= k < |r| :: r[k] < |doc|
    ensures Increasing(r)
  {
    ExcludedExactly(doc);
    var ex := Excluded(doc);
    Select(|doc|, (j: nat) => j !in ex)
  }

  /** `"".join(t.text_with_ws for t in kept)`. */
  function Recompose(doc: Doc, idx: seq<nat>): (r: string)
    requires forall k | 0 <= k < |idx| :: idx[k] < |doc|
    ensures |idx| == 0 ==> r == ""
    ensures |idx| > 0 ==> r == doc[idx[0]].text + doc[idx[0]].ws + Recompose(doc, idx[1..])
  {
    if |idx| == 0 then "" else doc[idx[0]].text + doc[idx[0]].ws + Recompose(doc, idx[1..])
  }

  /** The story core handed to the second parse. */
  function CoreText(doc: Doc): string {
    Strip(Recompose(doc, Kept(doc)))
  }

  /** No `advcl` token survives, and a parse without one keeps every token. */
  lemma KeptTokens(doc: Doc)
    ensures forall k | 0 <= k < |Kept(doc)| :: doc[Kept(doc)[k]].dep != "advcl"
    ensures (forall a | 0 <= a < |doc| :: doc[a].dep != "advcl") ==> Kept(doc) == Range(0, |doc|)
  {
    var r := Kept(doc);
    forall k | 0 <= k < |r| ensures doc[r[k]].dep != "advcl" {
      assert r[k] in r;
      InOwnSubtree(doc, r[k]);
    }
    if forall a | 0 <= a < |doc| :: doc[a].dep != "advcl" {
      IncreasingAll(r, |doc|);
    }
  }

  /** The second parse the services pipeline reads: the stripped story is
      parsed, its adverbial clauses are cut, and the core is parsed again. */
  function ServicesDoc(story: string, parse: string -> Doc): Doc {
    parse(CoreText(parse(Strip(story))))
  }

  /** services/phase1/helpers.py `extract_components`. */
  function ServicesExtract(story: string, parse: string -> Doc, n: Option<Narration>): (r: Result<Triple, ExtractError>)
    ensures r.Err? <==> |ServicesDoc(story, parse)| == 0
    ensures r.Ok? ==> forall f | f in {r.value.role, r.value.action, r.value.obj} && f.Some? :: Normalized(f.value)
    ensures r.Ok? ==> MergesNormalized(r.value, n, RuleTriple(ServicesDoc(story, parse), PrepRole(ServicesDoc(story, parse))))
  {
    var doc := ServicesDoc(story, parse);
    match Rules(doc, PrepRole(doc))
    case Err(e) => Err(e)
    case Ok(t) =>
      NormalizedOverride(t, n);
      Ok(NormalizeTriple(Override(t, n)))
  }
}
