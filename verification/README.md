# User-story analysis pipeline — Dafny model

This project models the pure core of a three-phase pipeline that turns free-text agile user stories
("As a *role*, I want to *action* *object* so that …") into concepts, frequencies and relationships.

- **Phase 1 — extraction.** Each story is cut at its first "so that". The dependency parse of the rest
  yields a role, an action (the main verb's lemma) and an object (its direct object, the object of a
  preposition, or the bare noun phrase). A "visual narrator" pattern match with confidence 0.9 may
  override those fields. In most copies every field is then lower-cased and stripped. A batch skips
  blank stories and collects the sorted distinct roles, actions and objects.
- **Phase 2 — concepts.** The extracted concepts are counted and frequencies are attached. Each
  story expands into role/object/action output records, numbered from 1. The services copy also
  builds an object-to-verbs map, the important objects and the response rows.
- **Phase 3 — regrouping and similarity.** The records are regrouped into one
  subject-verb-object entry per story. Synonyms come from WordNet lemma names. Wu-Palmer (and
  optionally word2vec) pairs are scored. The services copy maps each concept to a canonical
  synonym, scores every pair of canonical concepts, labels clusters and stores labelled
  relationships.

The repository holds several near-copies of each phase, and each copy is modelled separately:

- `phase1.py` and `phase3.py` at the top level;
- `analyzeUserStory/phase*.py` (single files);
- the `analyzeUserStory/phase*/` packages;
- the `services/phase*/` packages.

Everything the code obtains from outside is a parameter of the model:

- the spaCy parse (`parse: string -> Doc`, a token list whose heads are in range);
- the narrator's pattern match;
- WordNet synsets and `wup_similarity`;
- word2vec;
- `combined_similarity`, `cluster_concepts`, `label_cluster` and `normalize_check_exclude`;
- uuid and database ids.

Python's `set` iteration order is modelled as first-occurrence order. Every pair and membership
property is proved for any order of distinct elements.

Modules, in dependency order:

- `Wrappers`, `Strings`, `Sorting`, `Indices`, `DependencyParse` (the parse, `children`, `subtree`).
- `ActionRules` and `RoleRules` (the parse rules).
- `Extraction` (the four `extract_components`).
- `Phase1Batch` (`process_text`).
- `Phase2Helpers`, `AnalyzePhase2`, `ServicesPhase2`.
- `Phase3Records`, `Lexical`, `WordnetPhase3`, `ServicesPhase3`.

## Model

| member | source | states |
|---|---|---|
| ActionRules.FirstRootVerb | analyzeUserStory/phase1/helpers.py:152-156 | the first token that is a ROOT verb, or proof that none exists |
| ActionRules.FirstClausalVerb | analyzeUserStory/phase1/helpers.py:164-168 | the first `ccomp`/`advcl` verb, or proof that none exists |
| ActionRules.XcompChild | analyzeUserStory/phase1/helpers.py:158-162 | the first child of the verb, in document order, that is an `xcomp` verb: no earlier child is one; none exactly when no child is one |
| ActionRules.MainVerb | analyzeUserStory/phase1/helpers.py:150-168 | the main verb is a VERB token, absent exactly when there is neither a ROOT verb nor a clausal verb. It is the first ROOT verb, except that for a want/like lemma it is that verb's first `xcomp` verb child when one exists. With no ROOT verb it is the first `ccomp`/`advcl` verb. |
| ActionRules.DirectObject | analyzeUserStory/phase1/helpers.py:173-176 | the first `dobj` child of the verb in document order: no earlier child is one; none exactly when no child is one |
| ActionRules.PrepPobjText | analyzeUserStory/phase1/helpers.py:178-183 | present exactly for a `prep` child with a `pobj` child, and then the subtree text of its first `pobj` child |
| ActionRules.PrepLoop | analyzeUserStory/phase1/helpers.py:178-186 | the object is the initial one or one of the candidates; an empty result means every candidate was empty |
| ActionRules.PrepLoopFirstTruthy | analyzeUserStory/phase1/helpers.py:178-186 | with no direct object, the first non-empty candidate wins |
| ActionRules.PrepObject | analyzeUserStory/phase1/helpers.py:178-186 | the preposition fallback over the verb's children: the result is the direct object or some child's pobj text |
| ActionRules.PrepObjectFirstTruthy | analyzeUserStory/phase1/helpers.py:178-186 | the first child with a non-empty pobj text decides the object |
| ActionRules.VerbObject | analyzeUserStory/phase1/helpers.py:173-186 | a direct object's subtree text wins. Otherwise the object is some child's `prep`/`pobj` text, and it is empty or absent when every child's text is. |
| ActionRules.VerbObjectFirstPrep | analyzeUserStory/phase1/helpers.py:178-186 | without a direct object, the first child in document order whose `pobj` text is non-empty gives the object |
| ActionRules.FindActionAndObject | analyzeUserStory/phase1/helpers.py:148-192 | fails exactly on an empty parse. The action is the main verb's lemma and is present exactly when a main verb exists. The object is that verb's object. With no verb, the object is the whole text when the parse starts nominally, and none otherwise. |
| ActionRules.BareNounFallback | analyzeUserStory/phase1/helpers.py:187-190 | a verbless parse that starts with a noun gives no action and the whole text as object |
| RoleRules.FirstAsArticle | analyzeUserStory/phase1/helpers.py:132-134 | the first "as a"/"as an" position, or proof that none exists |
| RoleRules.SpanEnd | analyzeUserStory/phase1/helpers.py:135-137 | the role span stops at the first PUNCT, VERB or CCONJ token after the article |
| RoleRules.FirstSubjectOfRoot | analyzeUserStory/phase1/helpers.py:141-143 | the first `nsubj` token whose head is the root, or proof that none exists |
| RoleRules.ArticleRole | analyzeUserStory/phase1/helpers.py:131-145 | a role is found only when an "as a/an" phrase or a subject of the root exists |
| RoleRules.ArticleRoleSpan | analyzeUserStory/phase1/helpers.py:132-139 | the role is the space-joined span up to the boundary, or None when the span is empty |
| RoleRules.ArticleRoleSubject | analyzeUserStory/phase1/helpers.py:141-143 | without "as a/an", the role is the subtree text of the first subject of the root |
| RoleRules.ArticleRoleNone | analyzeUserStory/phase1/helpers.py:145 | neither rule applies, so there is no role |
| DependencyParse.PobjChild | services/phase1/helpers.py:108-113 | the first `pobj` child of a token in document order, or proof that none exists |
| RoleRules.FirstNominalSubject | services/phase1/helpers.py:119-124 | the first PRON/NOUN `nsubj` of the root, or proof that none exists |
| RoleRules.PrepRoleFound | services/phase1/helpers.py:105-113 | the first "as" preposition with a `pobj` child before any stop gives the stripped pobj subtree text |
| RoleRules.PrepScanReaches | services/phase1/helpers.py:107-116 | tokens that neither yield a role nor stop the scan are skipped |
| RoleRules.PrepRoleFallback | services/phase1/helpers.py:105-126 | when the scan stops at the cutoff before any "as" preposition with a `pobj`, the role is the first nominal subject's subtree text, or None, whatever follows the cutoff |
| RoleRules.PrepScanStops | services/phase1/helpers.py:115-116 | the scan ends with no role at the first stopping token |
| RoleRules.PrepScanSound | services/phase1/helpers.py:106-113 | a role the scan returns is the role some "as" preposition with a `pobj` yields |
| RoleRules.PrepRole | services/phase1/helpers.py:105-126 | a role comes either from an "as" preposition with a `pobj` or from a PRON/NOUN subject of the root; no role only when there is no such subject |
| RoleRules.PrepRoleNoYield | services/phase1/helpers.py:105-126 | when no token is an "as" preposition with a `pobj`, the scan runs out or stops without a role, and the role is the first nominal subject's subtree text, or None |
| Extraction.Narrate | analyzeUserStory/phase1/helpers.py:195-240 | confidence above 0.8 exactly when the pattern matched. A match gives the three stripped groups; no match gives no fields. |
| Extraction.Pick | analyzeUserStory/phase1/helpers.py:119-121 | a field is replaced exactly when the override fires and the offered value is non-empty; otherwise it is kept |
| Extraction.Override | analyzeUserStory/phase1/helpers.py:116-121 | below the threshold nothing changes. Above it, each non-empty offered field replaces the rule's field and the other fields are kept. |
| Extraction.OverrideIdempotent | analyzeUserStory/phase1/helpers.py:116-121 | applying the same narration twice equals applying it once |
| Extraction.UnmatchedNeverOverrides | analyzeUserStory/phase1/helpers.py:229-240 | a failed narrator, or a 0.3 free-text answer, leaves the rule triple unchanged |
| Extraction.EmptyGroupKeepsRuleObject | analyzeUserStory/phase1/helpers.py:197 | an all-whitespace object group never replaces the rule's object |
| Extraction.Normalize | analyzeUserStory/phase1/helpers.py:124-126 | None exactly for an empty or absent value. Otherwise the value has no upper-case letters and no surrounding whitespace, is no longer than the input, and is empty exactly when the input was all whitespace. |
| Extraction.NormalizeIdempotent | analyzeUserStory/phase1/helpers.py:124-126 | normalising twice equals normalising once, except for whitespace-only values |
| Extraction.WhitespaceValueNormalizesToEmpty | analyzeUserStory/phase1/helpers.py:124-126 | " " normalises to "", and "" then to None, so the exception is real |
| Extraction.Rules | analyzeUserStory/phase1/helpers.py:113-114 | fails exactly on an empty parse. The role is passed through. The action is present exactly when a main verb exists, and the object is the verb's object. |
| Extraction.PlainExtract | phase1.py:54-60 | fails exactly when the parse of the text before "so that" is empty; otherwise the role is the "as a/an" role of that parse and the action and object are those the action/object rules give for it |
| Extraction.OverrideExtract | analyzeUserStory/phase1.py:105-125 | same failure condition as the plain extractor, and equal to it when the narration does not fire. Each field is the narration's non-empty field when it fires, otherwise the rule's. |
| Extraction.HelperExtract | analyzeUserStory/phase1/helpers.py:109-128 | same failure condition. Every present field is normalised, and each is the normalised narration field when the narration fires and offers a non-empty one, otherwise the normalised rule field ("as a/an" role, main-verb action, its object). |
| Extraction.SoThatCut | analyzeUserStory/phase1/helpers.py:110-111 | text after the first "so that" cannot change the extraction, for both the plain and the helper extractor |
| Extraction.MatchedRoleWins | analyzeUserStory/phase1/helpers.py:116-126 | a matched non-blank role group becomes the role, stripped, lower-cased and stripped again |
| Extraction.ExcludeFromSound | services/phase1/helpers.py:72-77 | the exclusion loop only adds tokens under some `advcl`, and adds the whole subtree of every excluded token it visits |
| Extraction.ExcludedExactly | services/phase1/helpers.py:72-77 | a token is excluded exactly when it lies in the subtree of an `advcl` token |
| Extraction.Kept | services/phase1/helpers.py:80-82 | the surviving tokens are exactly those under no `advcl`, in increasing order |
| Extraction.KeptTokens | services/phase1/helpers.py:72-82 | no `advcl` token survives, and a parse without one keeps every token |
| Extraction.ServicesExtract | services/phase1/helpers.py:67-102 | fails exactly when the re-parse of the core text is empty. Every field is normalised, and each is the normalised narration field when the narration fires and offers a non-empty one, otherwise the normalised rule field (preposition role, main-verb action, its object) of the re-parse. |
| Strings.OrEmpty | analyzeUserStory/phase1/__init__.py:44-50 | `v or ""`: the value when it is non-empty, "" otherwise |
| Phase1Batch.LowerOrEmpty | phase1.py:29-31 | the result is normalised, and it equals the normalised value or "" |
| Phase1Batch.NonBlank | phase1.py:23-25 | exactly the positions of the non-blank stories, in increasing order |
| Phase1Batch.ConceptsAt | phase1.py:23-40 | succeeds exactly when every listed story extracts, with one concept per story in order; otherwise it returns some listed story's error |
| Phase1Batch.DistinctNonEmpty | phase1.py:42-44 | `sorted(set(...))` without "": strictly sorted, containing exactly the non-empty values |
| Phase1Batch.ProcessText | phase1.py:19-52 | succeeds exactly when every non-blank story extracts. Then there is one concept per non-blank story, built from its extraction. The role, action and object lists are strictly sorted and hold exactly the non-empty values of the concepts. |
| Phase1Batch.BlankStorySkipped | phase1.py:23-25 | appending a blank story changes nothing |
| Phase1Batch.StoryId | phase1.py:34 | the id is "US_" followed by at least three digits whose value is the position plus one |
| Phase1Batch.StoryIdInjective | phase1.py:34 | different story positions get different ids |
| Phase1Batch.PlainConceptShape | phase1.py:29-35 | each concept carries its story's id, the stripped original text and normalised fields |
| Phase1Batch.PlainIdsDistinct | phase1.py:34 | no two concepts of a batch share an id |
| Phase2Helpers.Count | services/phase2/helpers.py:6-13 | the keys are the counted strings, and each count is the multiplicity |
| Phase2Helpers.KeysOf | services/phase2/helpers.py:8-12 | exactly the non-empty keys of the concepts |
| Phase2Helpers.CountFrequency | services/phase2/helpers.py:6-13 | the frequency map holds exactly the non-empty keys, each counted by multiplicity and at least 1 |
| Phase2Helpers.CountAppend | services/phase2/helpers.py:10-12 | counting one more key raises only that key's count, by one |
| Phase2Helpers.KeysOfCount | services/phase2/helpers.py:8-12 | a non-empty key occurs in the key list once per concept carrying it |
| Phase2Helpers.CountFrequencyCounts | services/phase2/helpers.py:6-13 | a key is counted exactly when it is non-empty and some concept carries it, and its count is the number of concepts carrying it |
| Phase2Helpers.AttachOne | services/phase2/helpers.py:16-24 | the frequency is attached and the other fields are kept. `user_story_db_id` is filled from `db_id` only when it is missing. |
| Phase2Helpers.AttachServicesCounts | services/phase2/helpers.py:6-24 | counting and attaching over one batch: a concept with a non-empty text (or name) gets the number of concepts sharing it, any other concept 0 |
| Phase2Helpers.AttachedFrequencyPositive | services/phase2/helpers.py:6-24 | a concept with non-empty text gets a frequency of at least 1 from its own batch's counts |
| Phase2Helpers.AttachAnalyze | analyzeUserStory/phase2/helpers.py:12-17 | only the frequency changes, and it is the frequency of the concept's name (or text), or 0 |
| Phase2Helpers.AttachAnalyzeCounts | analyzeUserStory/phase2/helpers.py:5-17 | counting and attaching over one batch: a concept with a non-empty name (or text) gets the number of concepts sharing it, any other concept 0 |
| Phase2Helpers.DomainOf | services/phase2/helpers.py:37-44 | role before object before feature before none, by substring |
| Phase2Helpers.ServicesRow | services/phase2/helpers.py:27-54 | nameless concepts are skipped. The term is the text; `is_feature` holds exactly when the lower-cased classification contains "feature"; the domain is as above; the frequency is never 0. |
| Phase2Helpers.RoleBeatsFeature | services/phase2/helpers.py:35-44 | a classification containing both "role" and "feature" gives the role domain and is still a feature |
| Phase2Helpers.ColumnOf | analyzeUserStory/phase2/helpers.py:24-37 | feature goes to the action column, then role, then object, and anything else to action |
| Phase2Helpers.AnalyzeRow | analyzeUserStory/phase2/helpers.py:20-46 | only the name is written. A named concept fills exactly one column, the one its classification selects. |
| AnalyzePhase2.DropArticle | analyzeUserStory/phase2.py:26 | the result is a suffix of the input. It differs only when an article plus a space was removed, and a one-word input is unchanged. |
| AnalyzePhase2.DropArticleOf | analyzeUserStory/phase2.py:26 | "a/an/the" + " " + t gives t |
| AnalyzePhase2.ConceptKeys | analyzeUserStory/phase2.py:24-30 | at most two keys per concept: its role and its object, each with a leading article dropped; the action never counts |
| AnalyzePhase2.FrequencyKeys | analyzeUserStory/phase2.py:22-31 | exactly the keys contributed by some concept |
| AnalyzePhase2.ObjectFrequency | analyzeUserStory/phase2.py:22-31 | counts each key by multiplicity, at least 1 |
| AnalyzePhase2.ActionsDoNotCount | analyzeUserStory/phase2.py:22-31 | concepts that differ only in their actions give the same frequencies |
| AnalyzePhase2.UsidTextId | analyzeUserStory/phase2.py:45 | the text before the first ':' of `usid_text` is the id, unless the id itself contains ':' |
| AnalyzePhase2.FlagsOf | analyzeUserStory/phase2.py:48-66 | feature records carry feature flag 0 and no value flag; the others carry no feature flag and value flag 1 |
| AnalyzePhase2.RecordIf | analyzeUserStory/phase2.py:43-68 | one record exactly when the field is non-empty |
| AnalyzePhase2.ConceptRecords | analyzeUserStory/phase2.py:43-68 | every record carries the story's `usid_text`, its field's non-empty text, index 0 and its flags |
| AnalyzePhase2.ConceptRecordsOrder | analyzeUserStory/phase2.py:43-68 | records come in the order feature, role, object |
| AnalyzePhase2.ConceptRecordsComplete | analyzeUserStory/phase2.py:43-68 | a record of a kind exists exactly when that field is non-empty |
| AnalyzePhase2.AnalyzeKeeping | analyzeUserStory/phase2.py:9-71 | fresh frequencies. The earlier output is kept (renumbered) and the new records are appended with continuing numbers. |
| AnalyzePhase2.AnalyzeResetting | analyzeUserStory/phase2/__init__.py:16-85 | the output is reset, then holds exactly the numbered records. The frequency map stays empty and every persisted row is blank. |
| AnalyzePhase2.KeepingRepeats | analyzeUserStory/phase2.py:9-71 | a second call on the same concepts doubles the output, repeating every record with shifted numbers |
| AnalyzePhase2.ResettingIsKeepingFromEmpty | analyzeUserStory/phase2/__init__.py:48-85 | the package's output equals the single file's first call |
| ServicesPhase2.UsidOf | services/phase2/__init__.py:92 | the database id when it is non-zero, otherwise the story id |
| ServicesPhase2.RecordIf | services/phase2/__init__.py:93-116 | one record for a non-empty field, none otherwise |
| ServicesPhase2.StoryRecords | services/phase2/__init__.py:91-116 | at most three records, each one of the field records |
| ServicesPhase2.StoryRecordsSound | services/phase2/__init__.py:91-116 | every record carries the story's id, its field's non-empty text and index 0 |
| ServicesPhase2.StoryRecordsOrder | services/phase2/__init__.py:91-116 | records come in the order subject, verb, object |
| ServicesPhase2.StoryRecordsComplete | services/phase2/__init__.py:91-116 | every non-empty field gets its record |
| ServicesPhase2.FinalOutput | services/phase2/__init__.py:88-119 | every record has a non-empty text and its position plus one as index |
| ServicesPhase2.FinalOutputOfStory | services/phase2/__init__.py:88-119 | a new story appends exactly its own records, numbered after the earlier ones |
| ServicesPhase2.Frequency | services/phase2/__init__.py:29 | every record text is a key, whatever its kind, counted by multiplicity |
| ServicesPhase2.VerbsCountTowardObjects | services/phase2/__init__.py:29 | a verb that equals an object's text raises that object's frequency to at least 2 |
| ServicesPhase2.VerbMap | services/phase2/__init__.py:121-133 | every verb list is strictly sorted |
| ServicesPhase2.ObjectVerbs | services/phase2/__init__.py:121-133 | every verb list is strictly sorted |
| ServicesPhase2.VerbMapContents | services/phase2/__init__.py:121-133 | an object is a key exactly when some pair has it, and a verb is listed exactly when that pair occurs |
| ServicesPhase2.ObjectVerbsContents | services/phase2/__init__.py:121-133 | keys and verbs are exactly those of the stories with both an object and an action |
| ServicesPhase2.ObjectVerbsNormalized | services/phase2/__init__.py:128-131 | keys and verbs are non-empty and lower-case |
| ServicesPhase2.InsertImportant | services/phase2/__init__.py:44 | insertion keeps the list sorted and adds exactly one element |
| ServicesPhase2.SortImportant | services/phase2/__init__.py:44 | sorted by frequency (descending) then text, and a permutation of the input |
| ServicesPhase2.ImportantIdx | services/phase2/__init__.py:33-36 | exactly the positions of object records whose frequency is at least 3, in order |
| ServicesPhase2.Candidates | services/phase2/__init__.py:33-43 | one entry per important record, in order, each with frequency at least 3 |
| ServicesPhase2.ImportantObjects | services/phase2/__init__.py:33-44 | a permutation of the candidates sorted by frequency (descending) then text, all with frequency at least 3 |
| ServicesPhase2.RoleByUsid | services/phase2/__init__.py:51-55 | a story id is a key exactly when some row provides a role for it, and it maps to the first such role |
| ServicesPhase2.Flags | services/phase2/__init__.py:64-70 | feature and value flags sum to 1; the feature flag is 1 exactly for a feature |
| ServicesPhase2.RespondingIdx | services/phase2/__init__.py:57-71 | exactly the positions of records that produce a response row, in order |
| ServicesPhase2.ResponseRows | services/phase2/__init__.py:57-71 | one row per responding record, with its story id, text and that story's role (or ""); since `is_feature` is never set, every row has feature flag 0 and value flag 1 |
| ServicesPhase2.Persisted | services/phase2/__init__.py:46-48 | a row per record unless its text is empty, with no domain, no feature, and the frequency or 1 |
| ServicesPhase2.AnalyzeConcepts | services/phase2/__init__.py:18-86 | the frequencies are those of the final output, and the important objects are sorted |
| ServicesPhase2.AnalyzeConceptsRows | services/phase2/__init__.py:57-84 | every response row is a value row (feature flag 0, value flag 1), and every verb list is strictly sorted |
| ServicesPhase2.AnalyzeConceptsPersisted | services/phase2/__init__.py:46-48 | every output record is persisted |
| Phase3Records.Dedup | phase3.py:32 | distinct, with the same members, and no longer than the input |
| Phase3Records.TextsWhere | phase3.py:79-81 | exactly the non-empty texts of the selected records |
| Phase3Records.DistinctTexts | phase3.py:79-81 | the same members, once each |
| Phase3Records.Concepts | phase3.py:26-32 | exactly the non-empty texts of all records, once each |
| Phase3Records.KindOf | phase3.py:89-97 | a record writes the subject when its class contains "role", else the object for "object", else the verb when it is exactly "feature" |
| Phase3Records.Write | phase3.py:89-97 | writes one field and leaves the others and the id unchanged |
| Phase3Records.Build | phase3.py:84-97 | the story map is well formed: its order lists its keys once each |
| Phase3Records.BuildKeys | phase3.py:84-97 | a story has an entry exactly when one of its records creates it |
| Phase3Records.BuildFields | phase3.py:84-97 | every field holds the text of the last record of its story and kind |
| Phase3Records.UnwrittenIsBlank | analyzeUserStory/phase3/__init__.py:47-56 | a story none of whose records writes a field keeps an all-empty entry |
| Phase3Records.Values | phase3.py:99 | exactly the non-empty entries of the stories in the order list |
| Phase3Records.ValuesInOrder | phase3.py:99 | the values keep map order: one entry per story with a non-empty entry, in the order the stories were first seen (an ordered index filter) |
| Phase3Records.Svo | phase3.py:99 | every SVO entry has a non-empty field |
| Phase3Records.SvoMember | phase3.py:84-99 | an entry is in the list exactly when it is non-empty and is its story's entry |
| Phase3Records.SvoVariantsAgree | analyzeUserStory/phase3/__init__.py:47-58 | the defaultdict and setdefault versions give the same SVO entries |
| Phase3Records.SameEntry | analyzeUserStory/phase3/__init__.py:47-56 | a story present in both versions has the same entry |
| Lexical.SenseKey | phase3.py:37 | same length, no spaces |
| Lexical.ChosenSynsets | phase3.py:37-40 | the noun senses, or the verb senses when there are no noun senses |
| Lexical.LemmaNames | phase3.py:43-44 | exactly the lemma names of the chosen senses |
| Lexical.Spaced | phase3.py:45 | no underscore remains |
| Lexical.Synonyms | phase3.py:43-47 | no entry is the concept, no two entries are case variants, and none holds an underscore |
| Lexical.OfferClean | phase3.py:46-47 | offering one name keeps that invariant |
| Lexical.SynonymsSound | phase3.py:45-47 | every synonym is some lemma name with spaces |
| Lexical.SynonymsComplete | phase3.py:45-47 | every lemma name is the concept or is listed up to case |
| Lexical.SynonymsOf | phase3.py:34-47 | one concept's synonym list satisfies the invariant |
| Lexical.SynonymMap | phase3.py:34-47 | a concept has an entry exactly when its senses have lemma names, and the entry is its synonym list |
| Lexical.MaxAgainst | phase3.py:70-73 | at least the start value and every available score, and equal to the start or to one of the scores |
| Lexical.MaxAll | phase3.py:68-74 | the same over all sense pairs |
| Lexical.WuPalmer | phase3.py:63-74 | None exactly when either concept has no senses. Otherwise the result is non-negative, at least every score, and 0 or attained by some pair. |
| Lexical.Fan | phase3.py:51-53 | pairs one concept with each later one, in order |
| Lexical.PairsMembers | phase3.py:51-53 | the pairs are exactly (xs[i], xs[j]) for i < j |
| Lexical.PairsCount | phase3.py:51-53 | there are n(n-1)/2 pairs |
| Lexical.PairsNoSelf | phase3.py:51-53 | distinct concepts give no pair of a concept with itself |
| Lexical.PairsOnce | phase3.py:51-53 | no pair repeats in either orientation |
| Lexical.Scored | phase3.py:54-61 | a similarity is kept exactly when the score exists and exceeds the threshold |
| Lexical.WuPalmerPairs | phase3.py:49-61 | every result is a pair above 0.5 with its Wu-Palmer score, and every such pair is reported |
| Lexical.BothPairs | analyzeUserStory/phase3.py:105-130 | every result comes from a pair. Wu-Palmer results exceed 0.5 and word2vec results exceed 0.6. Without word2vec the results are the Wu-Palmer ones. |
| Lexical.BothPairsComplete | analyzeUserStory/phase3.py:105-130 | every pair above 0.5 by Wu-Palmer is reported as a Wu-Palmer entry, and with word2vec installed every pair above 0.6 by word2vec is reported as a word2vec entry, each with its score |
| Lexical.BothMethodsReported | analyzeUserStory/phase3.py:112-130 | a pair above both thresholds is reported twice, Wu-Palmer first |
| WordnetPhase3.Lists | phase3.py:79-81 | roles, objects and verbs are the distinct non-empty texts of their classes |
| WordnetPhase3.PairwiseAll | phase3.py:101-108 | one entry per similarity with its two concepts, score and type |
| WordnetPhase3.PairwiseFromPairs | phase3.py:101-108 | every pairwise entry joins two different known concepts and comes from a similarity |
| WordnetPhase3.PairwiseReports | phase3.py:49-61 | similarities complete over the pairs of concepts give pairwise entries for every pair of concepts, earlier one first, scored above the threshold |
| WordnetPhase3.PairwiseScores | phase3.py:101-108 | every entry of a method carries the score that method gives its two concepts |
| WordnetPhase3.PlainPairwise | phase3.py:49-61 | entries join two different concepts of the batch; each is a Wu-Palmer entry above 0.5 with the Wu-Palmer score of its concepts; and every pair of concepts scored above 0.5 is reported |
| WordnetPhase3.AnalyzePairwise | analyzeUserStory/phase3.py:105-130 | the same for Wu-Palmer; every other entry is a word2vec entry above 0.6 with the word2vec score of its concepts; with word2vec installed every pair above 0.6 is reported; without it the result is the Wu-Palmer one |
| WordnetPhase3.ProcessPlain | phase3.py:19-24 | the role, object and verb lists are the distinct texts of each class; the SVO list is the story entries; pairwise entries are exactly the Wu-Palmer pairs above 0.5 with their scores; synonyms exist exactly for the concepts with lemma names and hold their clean synonym lists |
| WordnetPhase3.ProcessAnalyze | analyzeUserStory/phase3.py:40-80 | the same lists, SVO entries and synonyms as the plain version; pairwise entries are exactly the Wu-Palmer pairs above 0.5 and, with word2vec installed, the word2vec pairs above 0.6, with their scores; without word2vec it equals the plain version |
| WordnetPhase3.ClassOf | analyzeUserStory/phase3.py:273-275 | the stored classification, or else a guess: feature if an action exists, then role, then object, else unknown |
| WordnetPhase3.Load | analyzeUserStory/phase3.py:276-292 | the index is the position plus one. The text is the action for "feature", else the role for a class naming "role", else the object for one naming "object", else the first filled column or "". The story text is the id, ": " and the original text. A feature carries its feature flag and no value flag; anything else the reverse. |
| WordnetPhase3.LoadUsidRoundTrip | analyzeUserStory/phase3.py:287 | the story id is read back from the loaded story text, unless the id holds a ":" |
| WordnetPhase3.LoadAll | analyzeUserStory/phase3.py:257-295 | one loaded record per stored concept, in order |
| WordnetPhase3.LoadGuess | analyzeUserStory/phase3.py:273-283 | without a stored class, the text is the action, role or object (in that order) and the guessed class regroups it under the matching field |
| WordnetPhase3.PlaceholderSynonyms | analyzeUserStory/phase3/helpers.py:5-14 | each concept's only synonym is itself |
| WordnetPhase3.TruthyTexts | analyzeUserStory/phase3/__init__.py:24 | the non-empty record texts, and only those |
| WordnetPhase3.TruthyTextsInOrder | analyzeUserStory/phase3/__init__.py:24 | one text per record with a non-empty text, in record order, repeats kept |
| WordnetPhase3.PackageRecords | analyzeUserStory/phase3/__init__.py:24-25 | a self-synonym record exactly for each non-empty text |
| WordnetPhase3.ProcessPackage | analyzeUserStory/phase3/__init__.py:17-68 | the same role, object and verb lists as the single file; no pairs and no synonyms; the SVO list holds the same entries as the single file's, possibly in another order (every record creates its story's entry here); self-synonym records for the texts |
| ServicesPhase3.Survivors | services/phase3/__init__.py:37-45 | exactly the stripped, non-empty texts that the exclusion filter keeps |
| ServicesPhase3.ConceptTexts | services/phase3/__init__.py:36-46 | the same, sorted and once each |
| ServicesPhase3.Canonical | services/phase3/__init__.py:52-64 | the first lemma of the first sense with spaces, lower-cased, or the lower-cased word when there is none |
| ServicesPhase3.CanonicalMap | services/phase3/__init__.py:66-67 | maps every concept text to its canonical form |
| ServicesPhase3.Canonicals | services/phase3/__init__.py:66-68 | the distinct canonical forms, sorted and lower-case |
| ServicesPhase3.ScoredPairs | services/phase3/__init__.py:71-75 | one "object" pair per 2-combination, in order, with its similarity |
| ServicesPhase3.ScoredPairsOrdered | services/phase3/__init__.py:71-75 | for sorted concepts each pair's first member sorts before its second, and every i < j pair occurs |
| ServicesPhase3.ConceptLabels | services/phase3/__init__.py:81-85 | exactly the clustered concepts are labelled |
| ServicesPhase3.ConceptLabelsLast | services/phase3/__init__.py:82-85 | a concept in several clusters keeps the label of the last one |
| ServicesPhase3.PairLabel | services/phase3/__init__.py:91 | the first end's label when it is non-empty, else the second end's |
| ServicesPhase3.RelationshipsAsWritten | services/phase3/__init__.py:88-92 | one relationship per pair: its ends are the pair's ends re-mapped through the canonical map, with the pair's similarity and type, labelled by the re-mapped ends |
| ServicesPhase3.RemapMakesSelfRelationship | services/phase3/__init__.py:88-92 | a concrete input where the re-mapping stores a relationship from a concept to itself |
| ServicesPhase3.Relationships | services/phase3/__init__.py:88-92 | one relationship per pair with the pair's own ends, similarity and label |
| ServicesPhase3.RelationshipsAgreeWhenStable | services/phase3/__init__.py:88-92 | when the canonical map leaves every pair end unchanged, the relationships as written are the corrected ones |
| ServicesPhase3.RelationshipsDistinctEnds | services/phase3/__init__.py:71-92 | the corrected relationships, built from the pairs' own canonical terms, each join two different concepts |
| ServicesPhase3.ClustersOut | services/phase3/__init__.py:99-102 | one entry per cluster, with its label and its members sorted as a permutation |
| ServicesPhase3.SynonymRecords | services/phase3/helpers.py:7-21 | one self-synonym record per named concept, in order, skipping unnamed ones |
| ServicesPhase3.SynonymRecordsComplete | services/phase3/helpers.py:11-20 | every named concept gets its record |
| ServicesPhase3.SynonymRecordsAllNamed | services/phase3/helpers.py:7-21 | when every concept is named, the records line up with the concepts |
| ServicesPhase3.SvoFilter | services/phase3/helpers.py:43-54 | kept exactly when the story id is non-zero and the subject and object are non-blank. Fields are stripped, and an empty verb becomes None. |
| ServicesPhase3.SvoFilterStable | services/phase3/helpers.py:43-54 | filtering a kept item again gives the same item |
| ServicesPhase3.ProcessWordnet | services/phase3/__init__.py:29-110 | as written: the concepts are the canonical forms of the filtered texts, sorted and lower-case; the pairs are the scored pairs of those concepts; the clusters are those of the clustering; one relationship per pair with its similarity, its ends re-mapped through the canonical map (lower-case), and the label of those ends |
| ServicesPhase3.ProcessWordnetIntended | services/phase3/__init__.py:29-110 | as written except for the relationships: one per pair, with the pair's own ends, similarity and label, none joining a concept with itself |
| ServicesPhase3.ProcessWordnetAgreesWhenStable | services/phase3/__init__.py:66-92 | when no concept is a stored text with a different canonical form, the program as written gives the intended output |
| ServicesPhase3.ProcessWordnetSynonyms | services/phase3/__init__.py:46-49 | the synonym records are the self-records of the filtered concept texts, before canonicalisation |

## Left out

- The spaCy model is not modelled. The parse is the oracle `parse`, and so is the services re-parse of the cleaned text.
- Tokens with empty text are not distinguished from absent ones.
- The narrator's regular expression is not modelled. The narrator's answer is modelled as the pattern's groups or no match; an exception is None.
- WordNet, `wup_similarity` and word2vec (training, vectors, cosine, floating point) are oracles. So are `combined_similarity`, `cluster_concepts`, `label_cluster` and `normalize_check_exclude`.
- The nltk download and the import-failure fallbacks are not modelled.
- Database writes, sessions, the HTTP routes, the graph store and `export_json` are I/O.
- `save_to_database`, `save_synonyms` and the `save_svo_relationships` look-ups are modelled only as the rows they would write.
- AnalyzePhase2.AnalyzeResetting: the story id a concept row is saved under (analyzeUserStory/phase2/__init__.py:27) is not part of the modelled row.
- uuid ids, database ids and timestamps are the oracles `idOf` and `dbIdOf`.
- Python set iteration order is modelled as first-occurrence order. Lower-casing is ASCII only.
- A dictionary's missing key is not distinguished from a key holding None.
- services/phase1/__init__.py:37 calls `save_to_database` with an `nlp=` keyword that the helper at services/phase1/helpers.py:27 does not accept, so the call raises a TypeError. The model gives the results the function would build without it.
- ServicesPhase2.AnalyzeConcepts: services/phase2/__init__.py:31 passes four arguments to the two-parameter helper at services/phase2/helpers.py:16, which raises a TypeError. The model applies the helper's effect. `is_feature` and the feature flag are never set, so every row is a value row. The contract is split across AnalyzeConcepts, AnalyzeConceptsRows and AnalyzeConceptsPersisted.
- services/phase3 reads `Concept.text_object_as_concept_domain` and imports `SvoRelationship`. Neither name matches the stored models, so the stored concept texts are the input `raws` and relationships are returned, not stored.
- The single-file Phase 3 classes accumulate synonyms and similarities across calls. One call on fresh state is modelled; AnalyzePhase2.AnalyzeKeeping models the Phase 2 accumulation.
- The unused `_generate_pairwise_relationships` (analyzeUserStory/phase3.py:192-204) is not modelled.
- `load_from_database` and `get_results` are not modelled beyond the loaded records.
- ServicesPhase2.ImportantEntry: the `flag` key of an important object (services/phase2/__init__.py:40) is not modelled. No output record has a `flag` key, so the value is always None.
- Extraction.NormalizeIdempotent: does not hold for whitespace-only values, which normalise to "" and then to None (Extraction.WhitespaceValueNormalizesToEmpty).

## Findings

| source | as written | input that shows it | evidently intended | confidence | as-written member | corrected member |
|---|---|---|---|---|---|---|
| services/phase3/__init__.py:88-91 | the ends of every pair of canonical concepts are looked up again in `canonical_map`, whose keys are the raw concept texts, so a canonical term that is also a raw text is re-mapped | stored texts "x" and "y", where the first sense of "x" has lemma "y" and that of "y" has lemma "z": the concepts are ["y", "z"], the pair is ("y", "z") and the stored relationship is ("z", "z") | store the pair's own canonical terms (the comment says "store canonical terms"), so every relationship joins two different concepts | medium; not executed | ServicesPhase3.RemapMakesSelfRelationship | ServicesPhase3.ProcessWordnetIntended |
