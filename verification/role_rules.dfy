/**
 * `find_role`: two divergent rule sets that pick the role phrase of a
 * parsed story.
 *  - ArticleRole: analyzeUserStory/phase1/helpers.py, phase1.py and
 *    analyzeUserStory/phase1.py scan for "as" followed by "a"/"an" and keep
 *    the words after the article.
 *  - PrepRole: services/phase1/helpers.py takes the `pobj` subtree of an
 *    "as" preposition, which keeps the article, and gives up early.
 */
module RoleRules {
  import opened Wrappers
  import opened Indices
  import opened Strings
  import opened DependencyParse

  // ----- "as a/an" variant -----

  /** Token `i` is "as" and the next token is "a" or "an". */
  predicate AsArticleAt(doc: Doc, i: nat) {
    i + 1 < |doc| && doc[i].lower == "as" && (doc[i + 1].lower == "a" || doc[i + 1].lower == "an")
  }

  /** A token that ends the role phrase. */
  predicate RoleBoundary(doc: Doc, j: nat)
    requires j < |doc|
  {
    doc[j].pos == "PUNCT" || doc[j].pos == "VERB" || doc[j].pos == "CCONJ"
  }

  /** `j` is a subject (`nsubj`/`nsubjpass`) whose head is the ROOT token. */
  predicate SubjectOfRoot(doc: Doc, j: nat)
    requires j < |doc|
  {
    (doc[j].dep == "nsubj" || doc[j].dep == "nsubjpass") && doc[doc[j].head].dep == "ROOT"
  }

  function FirstAsArticle(doc: Doc): (r: Option<nat>)
    ensures r.Some? ==> AsArticleAt(doc, r.value) && forall m | 0 <= m < r.value :: !AsArticleAt(doc, m)
    ensures r.None? ==> forall m | 0 <= m < |doc| :: !AsArticleAt(doc, m)
  {
    var p := (m: nat) => AsArticleAt(doc, m);
    assert forall m: nat :: p(m) == AsArticleAt(doc, m);
    First(|doc|, p)
  }

  /** The end of the role span starting at `from`: the first boundary token
      at or after `from`, or the end of the parse. */
  function SpanEnd(doc: Doc, from: nat): (r: nat)
    requires from <= |doc|
    ensures from <= r <= |doc|
    ensures forall m | from <= m < r :: !RoleBoundary(doc, m)
    ensures r < |doc| ==> RoleBoundary(doc, r)
  {
    var p := (m: nat) => m < |doc| && RoleBoundary(doc, m);
    assert forall m: nat | m < |doc| :: p(m) == RoleBoundary(doc, m);
    match FirstFrom(|doc|, p, from)
    case Some(k) => k
    case None => |doc|
  }

  function FirstSubjectOfRoot(doc: Doc): (r: Option<nat>)
    ensures r.Some? ==> r.value < |doc| && SubjectOfRoot(doc, r.value)
    ensures r.Some? ==> forall m | 0 <= m < r.value :: !SubjectOfRoot(doc, m)
    ensures r.None? ==> forall m | 0 <= m < |doc| :: !SubjectOfRoot(doc, m)
  {
    var p := (m: nat) => m < |doc| && SubjectOfRoot(doc, m);
    assert forall m: nat | m < |doc| :: p(m) == SubjectOfRoot(doc, m);
    First(|doc|, p)
  }

  /** `find_role` of the "as a/an" variant. */
  function ArticleRole(doc: Doc): (r: Option<string>)
    ensures r.Some? ==> (exists i | 0 <= i < |doc| :: AsArticleAt(doc, i))
                        || (exists j | 0 <= j < |doc| :: SubjectOfRoot(doc, j))
  {
    match FirstAsArticle(doc)
    case Some(i) =>
      var k := SpanEnd(doc, i + 2);
      if k == i + 2 then None else Some(Join(Texts(doc, Range(i + 2, k)), " "))
    case None =>
      match FirstSubjectOfRoot(doc)
      case Some(j) => Some(SubtreeText(doc, j))
      case None => None
  }

  /**
   * The first "as a/an" at `i` decides the role: the tokens from `i + 2` up
   * to the first PUNCT/VERB/CCONJ token `k` (exclusive), joined by single
   * spaces; an empty span gives `None` without trying the subject rule.
   * The span never contains the article or a boundary token.
   */
  lemma ArticleRoleSpan(doc: Doc, i: nat, k: nat)
    requires AsArticleAt(doc, i) && forall m | 0 <= m < i :: !AsArticleAt(doc, m)
    requires i + 2 <= k <= |doc|
    requires forall m | i + 2 <= m < k :: !RoleBoundary(doc, m)
    requires k == |doc| || RoleBoundary(doc, k)
    ensures ArticleRole(doc) == if k == i + 2 then None else Some(Join(Texts(doc, Range(i + 2, k)), " "))
    ensures forall m | m in Range(i + 2, k) :: m > i + 1 && !RoleBoundary(doc, m)
  {
    FirstAsArticleIs(doc, i);
    SpanEndIs(doc, i + 2, k);
  }

  lemma FirstAsArticleIs(doc: Doc, i: nat)
    requires AsArticleAt(doc, i) && forall m | 0 <= m < i :: !AsArticleAt(doc, m)
    ensures FirstAsArticle(doc) == Some(i)
  {
  }

  lemma SpanEndIs(doc: Doc, from: nat, k: nat)
    requires from <= k <= |doc|
    requires forall m | from <= m < k :: !RoleBoundary(doc, m)
    requires k == |doc| || RoleBoundary(doc, k)
    ensures SpanEnd(doc, from) == k
  {
  }

  /** Without "as a/an", the role is the subtree (minus punctuation) of the
      first subject attached to the ROOT token. */
  lemma ArticleRoleSubject(doc: Doc, j: nat)
    requires forall m | 0 <= m < |doc| :: !AsArticleAt(doc, m)
    requires j < |doc| && SubjectOfRoot(doc, j) && forall m | 0 <= m < j :: !SubjectOfRoot(doc, m)
    ensures ArticleRole(doc) == Some(SubtreeText(doc, j))
  {
    var j' := FirstSubjectOfRoot(doc).value;
    assert j' == j;
  }

  /** With neither rule applicable the role is `None`. */
  lemma ArticleRoleNone(doc: Doc)
    requires forall m | 0 <= m < |doc| :: !AsArticleAt(doc, m) && !SubjectOfRoot(doc, m)
    ensures ArticleRole(doc) == None
  {
  }

  // ----- services variant: "as" preposition -> pobj -----

  /** Token `i` is an "as" preposition. */
  predicate AsPrep(doc: Doc, i: nat)
    requires i < |doc|
  {
    doc[i].lower == "as" && doc[i].dep == "prep"
  }

  /** The scan gives up after token `i`: beyond index 5, any token that is
      not a subject or the ROOT ends it. */
  predicate ScanStops(doc: Doc, i: nat)
    requires i < |doc|
  {
    i > 5 && doc[i].dep != "nsubj" && doc[i].dep != "nsubjpass" && doc[i].dep != "ROOT"
  }

  /** Token `i` yields a role in the scan: an "as" preposition with a `pobj`. */
  predicate YieldsRole(doc: Doc, i: nat)
    requires i < |doc|
  {
    AsPrep(doc, i) && PobjChild(doc, i).Some?
  }

  /** The role an "as" preposition yields: its first `pobj` child's subtree
      without punctuation, joined by spaces and stripped. */
  function RoleAt(doc: Doc, i: nat): string
    requires i < |doc| && YieldsRole(doc, i)
  {
    Strip(SubtreeText(doc, PobjChild(doc, i).value))
  }

  /** The scan from token `i` on: the role of the first token that yields
      one, unless a token that stops the scan comes first. */
  function PrepScan(doc: Doc, i: nat): (r: Option<string>)
    requires i <= |doc|
    decreases |doc| - i
  {
    if i == |doc| then None
    else if YieldsRole(doc, i) then Some(RoleAt(doc, i))
    else if ScanStops(doc, i) then None
    else PrepScan(doc, i + 1)
  }

  /** A role the scan returns is the role of some token that yields one. */
  lemma {:induction false} PrepScanSound(doc: Doc, i: nat)
    requires i <= |doc|
    ensures PrepScan(doc, i).Some? ==>
              exists k | i <= k < |doc| :: YieldsRole(doc, k) && PrepScan(doc, i).value == RoleAt(doc, k)
    decreases |doc| - i
  {
    if i < |doc| && !YieldsRole(doc, i) && !ScanStops(doc, i) {
      PrepScanSound(doc, i + 1);
    }
  }

  /** A subject the services variant accepts: a pronoun or noun attached to ROOT. */
  predicate NominalSubjectOfRoot(doc: Doc, j: nat)
    requires j < |doc|
  {
    SubjectOfRoot(doc, j) && (doc[j].pos == "PRON" || doc[j].pos == "NOUN")
  }

  function FirstNominalSubject(doc: Doc): (r: Option<nat>)
    ensures r.Some? ==> r.value < |doc| && NominalSubjectOfRoot(doc, r.value)
    ensures r.Some? ==> forall m | 0 <= m < r.value :: !NominalSubjectOfRoot(doc, m)
    ensures r.None? ==> forall m | 0 <= m < |doc| :: !NominalSubjectOfRoot(doc, m)
  {
    var p := (m: nat) => m < |doc| && NominalSubjectOfRoot(doc, m);
    assert forall m: nat | m < |doc| :: p(m) == NominalSubjectOfRoot(doc, m);
    First(|doc|, p)
  }

  /** `find_role` of services/phase1/helpers.py. */
  function PrepRole(doc: Doc): (r: Option<string>)
    ensures r.Some? ==> (exists k | 0 <= k < |doc| :: YieldsRole(doc, k) && r.value == RoleAt(doc, k))
                        || (exists j | 0 <= j < |doc| :: NominalSubjectOfRoot(doc, j) && r.value == SubtreeText(doc, j))
    ensures r.None? ==> forall j | 0 <= j < |doc| :: !NominalSubjectOfRoot(doc, j)
  {
    PrepScanSound(doc, 0);
    match PrepScan(doc, 0)
    case Some(role) => Some(role)
    case None =>
      match FirstNominalSubject(doc)
      case Some(j) => Some(SubtreeText(doc, j))
      case None => None
  }

  /**
   * The first "as" preposition with a `pobj` that the scan reaches decides
   * the role: its first `pobj` child's subtree minus punctuation, joined and
   * stripped (so a determiner such as "a" stays). An "as" preposition without
   * a `pobj` does not stop the scan; a token past index 5 that is neither a
   * subject nor the ROOT stops it after its own "as" check.
   */
  lemma {:induction false} PrepRoleFound(doc: Doc, i: nat)
    requires i < |doc| && YieldsRole(doc, i)
    requires forall m | 0 <= m < i :: !YieldsRole(doc, m) && !ScanStops(doc, m)
    ensures PrepRole(doc) == Some(RoleAt(doc, i))
  {
    PrepScanReaches(doc, 0, i);
    PrepScanHits(doc, i);
  }

  /** The scan passes over tokens that neither yield a role nor stop it. */
  lemma {:induction false} PrepScanReaches(doc: Doc, from: nat, i: nat)
    requires from <= i < |doc|
    requires forall m | from <= m < i :: !YieldsRole(doc, m) && !ScanStops(doc, m)
    ensures PrepScan(doc, from) == PrepScan(doc, i)
    decreases i - from
  {
    if from < i {
      assert !YieldsRole(doc, from) && !ScanStops(doc, from);
      PrepScanSkips(doc, from);
      PrepScanReaches(doc, from + 1, i);
    }
  }

  /** One step of the scan past a token that neither yields nor stops. */
  lemma PrepScanSkips(doc: Doc, i: nat)
    requires i < |doc| && !YieldsRole(doc, i) && !ScanStops(doc, i)
    ensures PrepScan(doc, i) == PrepScan(doc, i + 1)
  {
  }

  lemma PrepScanHits(doc: Doc, i: nat)
    requires i < |doc| && YieldsRole(doc, i)
    ensures PrepScan(doc, i) == Some(RoleAt(doc, i))
  {
  }

  /** When the scan stops at `s` before any "as" preposition with a `pobj`,
      only a pronoun or noun subject of ROOT can give the role. */
  lemma {:induction false} PrepRoleFallback(doc: Doc, s: nat)
    requires s < |doc| && ScanStops(doc, s) && !YieldsRole(doc, s)
    requires forall m | 0 <= m < s :: !YieldsRole(doc, m)
    ensures PrepRole(doc) == match FirstNominalSubject(doc)
                             case Some(j) => Some(SubtreeText(doc, j))
                             case None => None
  {
    PrepScanStops(doc, 0, s);
  }

  lemma {:induction false} PrepScanStops(doc: Doc, from: nat, s: nat)
    requires from <= s < |doc| && ScanStops(doc, s) && !YieldsRole(doc, s)
    requires forall m | from <= m < s :: !YieldsRole(doc, m)
    ensures PrepScan(doc, from) == None
    decreases s - from
  {
    if from < s && !ScanStops(doc, from) {
      PrepScanStops(doc, from + 1, s);
    }
  }

  /** When no token is an "as" preposition with a `pobj`, the scan runs out
      or stops without a role, and only a pronoun or noun subject of ROOT can
      give one. */
  lemma PrepRoleNoYield(doc: Doc)
    requires forall m | 0 <= m < |doc| :: !YieldsRole(doc, m)
    ensures PrepRole(doc) == match FirstNominalSubject(doc)
                             case Some(j) => Some(SubtreeText(doc, j))
                             case None => None
  {
    PrepScanNoYield(doc, 0);
  }

  lemma {:induction false} PrepScanNoYield(doc: Doc, from: nat)
    requires from <= |doc|
    requires forall m | from <= m < |doc| :: !YieldsRole(doc, m)
    ensures PrepScan(doc, from) == None
    decreases |doc| - from
  {
    if from < |doc| && !ScanStops(doc, from) {
      PrepScanNoYield(doc, from + 1);
    }
  }
}
