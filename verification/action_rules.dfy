/**
 * `find_action_and_object`: the rule engine that picks the main verb of a
 * parsed story and the object it governs. The rule text is identical in
 * analyzeUserStory/phase1/helpers.py, services/phase1/helpers.py, phase1.py
 * and analyzeUserStory/phase1.py, so it is modelled once.
 */
module ActionRules {
  import opened Wrappers
  import opened Indices
  import opened Strings
  import opened DependencyParse

  /** Indexing `doc[0]` of an empty parse raises `IndexError`. */
  datatype ExtractError = EmptyDoc

  /** The (action, object) pair returned by the rules; `None` is Python's `None`. */
  datatype ActionObject = ActionObject(action: Option<string>, obj: Option<string>)

  predicate RootVerb(doc: Doc, i: nat)
    requires i < |doc|
  {
    doc[i].dep == "ROOT" && doc[i].pos == "VERB"
  }

  /** A desire verb whose open clausal complement carries the real action. */
  predicate IsDesire(lemmaText: string) {
    lemmaText == "want" || lemmaText == "like"
  }

  predicate XcompVerb(doc: Doc, c: nat)
    requires c < |doc|
  {
    doc[c].dep == "xcomp" && doc[c].pos == "VERB"
  }

  predicate ClausalVerb(doc: Doc, i: nat)
    requires i < |doc|
  {
    doc[i].pos == "VERB" && (doc[i].dep == "ccomp" || doc[i].dep == "advcl")
  }

  predicate IsFirstRootVerb(doc: Doc, i: nat) {
    i < |doc| && RootVerb(doc, i) && forall m | 0 <= m < i :: !RootVerb(doc, m)
  }

  predicate IsFirstClausalVerb(doc: Doc, i: nat) {
    i < |doc| && ClausalVerb(doc, i) && forall m | 0 <= m < i :: !ClausalVerb(doc, m)
  }

  function FirstRootVerb(doc: Doc): (r: Option<nat>)
    ensures r.Some? ==> IsFirstRootVerb(doc, r.value)
    ensures r.None? ==> forall m | 0 <= m < |doc| :: !RootVerb(doc, m)
  {
    var p := (m: nat) => m < |doc| && RootVerb(doc, m);
    assert forall m: nat | m < |doc| :: p(m) == RootVerb(doc, m);
    First(|doc|, p)
  }

  function FirstClausalVerb(doc: Doc): (r: Option<nat>)
    ensures r.Some? ==> IsFirstClausalVerb(doc, r.value)
    ensures r.None? ==> forall m | 0 <= m < |doc| :: !ClausalVerb(doc, m)
  {
    var p := (m: nat) => m < |doc| && ClausalVerb(doc, m);
    assert forall m: nat | m < |doc| :: p(m) == ClausalVerb(doc, m);
    First(|doc|, p)
  }

  /** The first `xcomp` verb child of `v` in document order, if any. */
  function XcompChild(doc: Doc, v: nat): (r: Option<nat>)
    requires v < |doc|
    ensures r.Some? ==> r.value < |doc| && r.value in Children(doc, v) && XcompVerb(doc, r.value)
    ensures r.Some? ==> forall c | c in Children(doc, v) && c < r.value :: !XcompVerb(doc, c)
    ensures r.None? ==> forall c | c in Children(doc, v) :: !XcompVerb(doc, c)
  {
    var p := (c: nat) => c < |doc| && XcompVerb(doc, c);
    assert forall c | c in Children(doc, v) :: p(c) == XcompVerb(doc, c);
    FirstIn(Children(doc, v), p)
  }

  /**
   * The main verb: the first ROOT verb, replaced by its first `xcomp` verb
   * child when its lemma is "want" or "like"; without a ROOT verb, the first
   * verb attached as `ccomp` or `advcl`.
   */
  function MainVerb(doc: Doc): (r: Option<nat>)
    ensures r.Some? ==> r.value < |doc| && doc[r.value].pos == "VERB"
    ensures r.None? <==> (forall m | 0 <= m < |doc| :: !RootVerb(doc, m) && !ClausalVerb(doc, m))
    ensures forall i: nat | IsFirstRootVerb(doc, i) && !IsDesire(doc[i].lemmaText) :: r == Some(i)
    ensures forall i: nat | IsFirstRootVerb(doc, i) && IsDesire(doc[i].lemmaText) ::
              r == (if XcompChild(doc, i).Some? then XcompChild(doc, i) else Some(i))
    ensures (forall m | 0 <= m < |doc| :: !RootVerb(doc, m)) ==>
              forall j: nat | IsFirstClausalVerb(doc, j) :: r == Some(j)
  {
    match FirstRootVerb(doc)
    case Some(v) =>
      if IsDesire(doc[v].lemmaText) then
        match XcompChild(doc, v)
        case Some(c) => Some(c)
        case None => Some(v)
      else Some(v)
    case None => FirstClausalVerb(doc)
  }

  /** The first `dobj` child of `v` in document order, if any. */
  function DirectObject(doc: Doc, v: nat): (r: Option<nat>)
    requires v < |doc|
    ensures r.Some? ==> r.value < |doc| && r.value in Children(doc, v) && doc[r.value].dep == "dobj"
    ensures r.Some? ==> forall c | c in Children(doc, v) && c < r.value :: doc[c].dep != "dobj"
    ensures r.None? ==> forall c | c in Children(doc, v) :: doc[c].dep != "dobj"
  {
    var p := (c: nat) => c < |doc| && doc[c].dep == "dobj";
    assert forall c | c in Children(doc, v) :: p(c) == (doc[c].dep == "dobj");
    FirstIn(Children(doc, v), p)
  }

  /** For a `prep` child `c`: the subtree text of its first `pobj` child, if
      it has one; any other child offers nothing. */
  function PrepPobjText(doc: Doc, c: nat): (r: Option<string>)
    requires c < |doc|
    ensures r.Some? <==> doc[c].dep == "prep" && exists g | g in Children(doc, c) :: doc[g].dep == "pobj"
    ensures forall g | g in Children(doc, c) && doc[g].dep == "pobj" && doc[c].dep == "prep" ::
              (forall d | d in Children(doc, c) && d < g :: doc[d].dep != "pobj") ==>
                r == Some(SubtreeText(doc, g))
  {
    if doc[c].dep != "prep" then None
    else
      match PobjChild(doc, c)
      case Some(g) => Some(SubtreeText(doc, g))
      case None => None
  }

  /** The `pobj` text each child offers, in order. */
  function PrepTexts(doc: Doc, kids: seq<nat>): (r: seq<Option<string>>)
    requires forall k | 0 <= k < |kids| :: kids[k] < |doc|
    ensures |r| == |kids| && forall k | 0 <= k < |kids| :: r[k] == PrepPobjText(doc, kids[k])
  {
    seq(|kids|, k requires 0 <= k < |kids| => PrepPobjText(doc, kids[k]))
  }

  /**
   * The loop over the verb's children looking for `prep` -> `pobj`, over
   * the texts the children offer: each offered text overwrites `obj`, and
   * the loop stops as soon as `obj` is truthy.
   */
  function PrepLoop(found: seq<Option<string>>, obj: Option<string>): (r: Option<string>)
    ensures r == obj || exists k | 0 <= k < |found| :: r == found[k]
    ensures !Truthy(r) ==> forall k | 0 <= k < |found| :: !Truthy(found[k])
    decreases |found|
  {
    if |found| == 0 then obj
    else
      var obj' := if found[0].Some? then found[0] else obj;
      if Truthy(obj') then obj'
      else
        var r := PrepLoop(found[1..], obj');
        assert forall k | 1 <= k < |found| :: found[k] == found[1..][k - 1];
        r
  }

  /** When the first truthy offered text is `found[k]`, the loop returns it. */
  lemma {:induction false} PrepLoopFirstTruthy(found: seq<Option<string>>, obj: Option<string>, k: nat)
    requires k < |found| && Truthy(found[k])
    requires forall m | 0 <= m < k :: !Truthy(found[m])
    requires !Truthy(obj)
    ensures PrepLoop(found, obj) == found[k]
    decreases k
  {
    if k > 0 {
      var obj' := if found[0].Some? then found[0] else obj;
      assert found[1..][k - 1] == found[k];
      PrepLoopFirstTruthy(found[1..], obj', k - 1);
    }
  }

  /** The loop over the children themselves. */
  function PrepObject(doc: Doc, kids: seq<nat>, obj: Option<string>): (r: Option<string>)
    requires forall k | 0 <= k < |kids| :: kids[k] < |doc|
    ensures r == obj || exists k | 0 <= k < |kids| :: r == PrepPobjText(doc, kids[k])
    ensures !Truthy(r) ==> forall k | 0 <= k < |kids| :: !Truthy(PrepPobjText(doc, kids[k]))
  {
    PrepLoop(PrepTexts(doc, kids), obj)
  }

  /** When the first `prep` child whose `pobj` text is non-empty is `kids[k]`,
      the loop returns that text. */
  lemma PrepObjectFirstTruthy(doc: Doc, kids: seq<nat>, obj: Option<string>, k: nat)
    requires forall m | 0 <= m < |kids| :: kids[m] < |doc|
    requires k < |kids| && Truthy(PrepPobjText(doc, kids[k]))
    requires forall m | 0 <= m < k :: !Truthy(PrepPobjText(doc, kids[m]))
    requires !Truthy(obj)
    ensures PrepObject(doc, kids, obj) == PrepPobjText(doc, kids[k])
  {
    PrepLoopFirstTruthy(PrepTexts(doc, kids), obj, k);
  }

  /** The object governed by the main verb `v`: its first `dobj` child's
      subtree, else the `prep` -> `pobj` loop. */
  function VerbObject(doc: Doc, v: nat): (r: Option<string>)
    requires v < |doc|
    ensures forall c | DirectObject(doc, v) == Some(c) :: r == Some(SubtreeText(doc, c))
    ensures DirectObject(doc, v).None? && r.Some? ==>
              exists c | c in Children(doc, v) :: r == PrepPobjText(doc, c)
    ensures DirectObject(doc, v).None? && (forall c | c in Children(doc, v) :: !Truthy(PrepPobjText(doc, c))) ==>
              !Truthy(r)
  {
    match DirectObject(doc, v)
    case Some(c) => Some(SubtreeText(doc, c))
    case None => PrepObject(doc, Children(doc, v), None)
  }

  /** Without a `dobj` child, the object is the text offered by the first
      child (in document order) whose `prep` -> `pobj` text is non-empty. */
  lemma VerbObjectFirstPrep(doc: Doc, v: nat, k: nat)
    requires v < |doc| && DirectObject(doc, v).None?
    requires k < |Children(doc, v)| && Truthy(PrepPobjText(doc, Children(doc, v)[k]))
    requires forall m | 0 <= m < k :: !Truthy(PrepPobjText(doc, Children(doc, v)[m]))
    ensures VerbObject(doc, v) == PrepPobjText(doc, Children(doc, v)[k])
  {
    PrepObjectFirstTruthy(doc, Children(doc, v), None, k);
  }

  predicate NominalStart(doc: Doc)
    requires |doc| > 0
  {
    doc[0].pos == "NOUN" || doc[0].pos == "DET" || doc[0].pos == "PROPN"
  }

  /**
   * `find_action_and_object`. The action is the main verb's lemma. When
   * neither action nor object is truthy the bare-noun fallback reads
   * `doc[0]`, which raises on an empty parse.
   */
  function FindActionAndObject(doc: Doc): (r: Result<ActionObject, ExtractError>)
    ensures r.Err? <==> |doc| == 0
    ensures r.Ok? ==> (r.value.action.Some? <==> MainVerb(doc).Some?)
    ensures r.Ok? && MainVerb(doc).Some? ==>
              r.value.action == Some(doc[MainVerb(doc).value].lemmaText)
    ensures r.Ok? && Truthy(r.value.action) ==> r.value.obj == VerbObject(doc, MainVerb(doc).value)
    ensures r.Ok? && MainVerb(doc).None? ==>
              r.value.obj == (if NominalStart(doc) then Some(DocText(doc)) else None)
  {
    var action := if MainVerb(doc).Some? then Some(doc[MainVerb(doc).value].lemmaText) else None;
    var obj := if MainVerb(doc).Some? then VerbObject(doc, MainVerb(doc).value) else None;
    if !Truthy(action) && !Truthy(obj) then
      if |doc| == 0 then Err(EmptyDoc)
      else if NominalStart(doc) then Ok(ActionObject(action, Some(DocText(doc))))
      else Ok(ActionObject(action, obj))
    else Ok(ActionObject(action, obj))
  }

  /** The bare-noun fallback fires only when neither action nor object was
      found, and then the object is every non-punctuation token. */
  lemma BareNounFallback(doc: Doc)
    requires |doc| > 0 && NominalStart(doc)
    requires MainVerb(doc).None?
    ensures FindActionAndObject(doc) == Ok(ActionObject(None, Some(DocText(doc))))
  {
  }
}
