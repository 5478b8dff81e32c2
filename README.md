# FAQ intent pipeline — a Dafny model

This project models the core of a small FAQ chatbot, `faq_skeleton.py`. It
loads a knowledge base from a text file of four-line blocks: a regular
expression, two question phrasings and one answer. It then maps each user
utterance to an intent and turns that intent into a reply:

1. **Normalisation.** The utterance is lower-cased and stripped, then cleaned:
   every character outside `[\w\s'?.]` is deleted and every run of whitespace
   becomes one space.
2. **Phase 1.** Each stored pattern is compiled as `^pattern$`, ignoring
   case. The first pattern that compiles and matches gives the intent.
   A pattern that does not compile is skipped.
3. **Phase 2.** Every question phrasing is scored with `fuzz.ratio`. Pairs
   scoring 50 or more become candidates. The candidates are sorted stably by
   score and then by phrasing length, both descending. The head candidate
   gives the intent if its score reaches the threshold (default 60);
   otherwise the intent is -1.
4. **Heuristics.** These run only when no phrasing scored 50. spaCy-based
   rules decide whether the utterance is a question or a command. The
   pipeline then composes a reply, given as intent -2 with its text: a map
   link for a "where"/"location" question, search links for the first
   entity, or a request to clarify. If neither rule fires, the intent is -1.
5. **`response_generate`.** It returns the apology for -1, the composed text
   for -2, and otherwise the joined, stripped answer of the intent.

Four behaviours of the code are easy to overlook, and the model keeps them:
- `clean_input` also keeps the period (`.`).
- A place question for which no location is found is not sent to the entity
  branch. It falls through to the command rules (`Pipeline.PlaceQuestionWithoutLocation`).
- The third command rule looks at every verb token, not just the root.
- The loader does not reject a trailing partial block. `Knowledge.ParseShape`
  states the list lengths that result.

Foreign capabilities are parameters of the model, not implementations:
- the regular-expression engine (`Patterns.RegexEngine`: which sources
  compile, and whether a compiled expression matches);
- `fuzz.ratio` (any function into 0..100);
- the spaCy language model (`Nlp.Analyzer`: any function from text to a
  parsed `Nlp.Doc` with tokens, entity spans and location-matcher spans).

`Pipeline.Services` bundles the three. Every property proved holds for every
choice of them.

Modules:
- `Text`: Python's `lower`, `strip`, `startswith`, `endswith`, `in` and
  `' '.join` on `seq<char>`.
- `Normalizer`: `clean_input`.
- `Nlp`: the parsed-document interface, span text and slicing.
- `Knowledge`: `read_Q_A`.
- `Patterns`: phase 1.
- `Fuzzy`: phase 2.
- `Heuristics`: `is_asking_question` and `is_command`.
- `Extract`: `get_entities` and `get_location_from_user`.
- `Links`: the two link builders.
- `Pipeline`: `understand` and `response_generate`.

State-changing code is modelled as methods proved against specification
functions:
- `Knowledge.ReadQA` against `Knowledge.Parse`;
- `Patterns.MatchPatterns` against `Patterns.FirstHit`;
- `Fuzzy.CollectCandidates` against `Fuzzy.Candidates`;
- `Extract.GetEntities` against `Extract.EntitiesOf`;
- `Extract.GetLocationFromUser` against `Extract.Locations`;
- `Pipeline.Understand` and `Pipeline.Fallback` against `Pipeline.Resolve`
  and `Pipeline.Heuristic`.

The properties are then proved about those functions.

## Model

| member | source | states |
|---|---|---|
| Text.LowerChar | faq_skeleton.py:227 | `lower()` maps an upper-case ASCII letter to its own lower-case letter (code point + 32) and leaves every other character as it is |
| Text.TrimStartFacts | faq_skeleton.py:41 | `lstrip` keeps a suffix of the line, cuts off only whitespace and leaves no whitespace in front |
| Text.TrimEndFacts | faq_skeleton.py:41 | `rstrip` keeps a prefix of the line, cuts off only whitespace and leaves no whitespace behind |
| Text.StripFacts | faq_skeleton.py:41 | `strip` keeps a contiguous piece of the line that neither starts nor ends with whitespace, and everything cut off before and after it is whitespace |
| Text.StripUnchanged | faq_skeleton.py:41 | a string without surrounding whitespace is left unchanged by `strip` |
| Text.StripIdempotent | faq_skeleton.py:41 | stripping twice is stripping once |
| Text.StripEmptyIffBlank | faq_skeleton.py:41-45 | a line strips to the empty string exactly when all its characters are whitespace, which is when the loader skips it |
| Text.Contains | faq_skeleton.py:265 | the substring test `sub in s` holds exactly when `sub` occurs at some position of `s` |
| Text.LowerStrip | faq_skeleton.py:227 | under character-by-character lower-casing, lower-casing and stripping commute: `s.lower().strip() == s.strip().lower()` |
| Text.Join | faq_skeleton.py:304 | `sep.join(parts)` is empty for no parts and the part itself for one part |
| Text.JoinAppend | faq_skeleton.py:304 | joining one more part appends the separator and that part, so the parts appear in order, each separated once |
| Normalizer.RemoveSpecials | faq_skeleton.py:316 | the characters left by the first substitution are exactly the input's characters in `[\w\s'?.]`, and the text never grows |
| Normalizer.RemoveSpecialsSingle | faq_skeleton.py:316 | one character is kept if it is in `[\w\s'?.]` and deleted otherwise |
| Normalizer.RemoveSpecialsConcat | faq_skeleton.py:316 | the first substitution works piece by piece, `f(a + b) == f(a) + f(b)`, so the kept characters keep their order and multiplicity |
| Normalizer.SkipSpacesFacts | faq_skeleton.py:317 | what a run of `\s` consumes is whitespace, and the rest starts with a non-space |
| Normalizer.SkipSpacesRun | faq_skeleton.py:317 | a run of `\s` followed by text that does not start with whitespace is consumed entirely |
| Normalizer.SkipSpacesConcat | faq_skeleton.py:317 | a leading run of `\s` ends inside a text that ends with a non-space, whatever follows it |
| Normalizer.CollapseSpacesRun | faq_skeleton.py:317 | a non-empty run of `\s` between a text not ending in whitespace and one not starting with it becomes exactly one space |
| Normalizer.CollapseSpacesFacts | faq_skeleton.py:317 | after `re.sub(r'\s+', ' ', s)` the only whitespace is single spaces, no character is introduced but the space, and the result is empty exactly when the input is |
| Normalizer.CleanInput | faq_skeleton.py:306-318 | the cleaned text is no longer than the input, holds only kept characters, has no whitespace other than the space, and never two whitespace characters in a row (that a run leaves exactly one space is `Normalizer.CleanInputRun`) |
| Normalizer.RemoveSpecialsUnchanged | faq_skeleton.py:316 | a text of kept characters passes the first substitution unchanged |
| Normalizer.CollapseSpacesUnchanged | faq_skeleton.py:317 | a text with single spaces only passes the second substitution unchanged |
| Normalizer.CleanInputRun | faq_skeleton.py:306-318 | two pieces of kept text joined by a run of whitespace are cleaned to the two cleaned pieces joined by exactly one space |
| Normalizer.CleanInputIdempotent | faq_skeleton.py:306-318 | `clean_input(clean_input(x)) == clean_input(x)` |
| Normalizer.CleanInputKeepsVisibleText | faq_skeleton.py:306-318 | apart from whitespace, the cleaned text is exactly the input's kept characters, in order |
| Normalizer.LowerCleanInput | faq_skeleton.py:227-228 | under character-by-character lower-casing, lower-casing commutes with `clean_input` |
| Nlp.Slice | faq_skeleton.py:204 | `doc[start:end]` is the token slice when the bounds lie in the document, runs to the end of the document when `end` is past it, and is empty when the start is past the document or the end is not after the start (Python's clamping) |
| Nlp.SomeToken | faq_skeleton.py:93-95 | a token loop with an early `return True` answers True exactly when some token satisfies the test |
| Heuristics.IsAskingQuestion | faq_skeleton.py:77-105 | the utterance is a question exactly when it ends in `?` once stripped, or some token is a wh-word, a modal auxiliary, or a modal verb |
| Heuristics.IsCommand | faq_skeleton.py:107-135 | the utterance is a command exactly when one of the four rules fires; in particular it is not one only if every token is a nominal subject |
| Extract.GetEntities | faq_skeleton.py:137-151 | one `(ent.text, ent.label_)` pair per entity of the lower-cased utterance, in document order |
| Extract.PlaceEntities | faq_skeleton.py:207-209 | the place texts are no more than the entities, and there are none exactly when no entity has a GPE, LOC, FAC or ORG label (their order and multiplicity are given by `Extract.PlaceEntitiesConcat`) |
| Extract.PlaceEntitiesSingle | faq_skeleton.py:207-209 | one entity contributes its text exactly when its label is GPE, LOC, FAC or ORG |
| Extract.PlaceEntitiesConcat | faq_skeleton.py:207-209 | the comprehension runs entity by entity, `f(a + b) == f(a) + f(b)`, so every place entity's text appears once, in document order |
| Extract.FirstPlaceEntity | faq_skeleton.py:207-209 | the first place text is the text of the first entity with a place label |
| Extract.LocationsContents | faq_skeleton.py:199-211 | with matches, one `doc[start+2:end].text` per match in order; without, the place-entity texts; the list is empty exactly when there is no match and no place entity |
| Extract.GetLocationFromUser | faq_skeleton.py:189-211 | the loop and the fallback compute the candidate locations of the parsed utterance |
| Extract.MatchedPlaceIsTail | faq_skeleton.py:168-174 | for a match of the location pattern, the location is the text of the tokens after the preposition, and that span has at least one token |
| Extract.MatchedPlaceNonEmpty | faq_skeleton.py:203-204 | when no token has empty text, as spaCy guarantees, the location taken from a match is a non-empty string |
| Links.PlusForSpaces | faq_skeleton.py:163 | `replace(" ", "+")` keeps the length and changes exactly the spaces |
| Links.GoogleLink | faq_skeleton.py:153-164 | the search link is the fixed prefix followed by the text with every space replaced by `+` and every other character in its place |
| Links.GoogleMapLink | faq_skeleton.py:176-187 | the map link is the fixed prefix followed by the location with every space replaced by `+` and every other character in its place |
| Links.PlusForSpacesInjective | faq_skeleton.py:163 | on texts without `+`, the replacement is injective |
| Links.GoogleLinkInjective | faq_skeleton.py:153-164 | a search link determines its text, for texts without `+` |
| Links.GoogleMapLinkInjective | faq_skeleton.py:176-187 | a map link determines its location, for locations without `+` |
| Patterns.FirstHitFrom | faq_skeleton.py:233-241 | from a given index on, the result is the first index whose pattern compiles and matches, or none if no later pattern does |
| Patterns.FirstHit | faq_skeleton.py:233-241 | phase 1 returns the smallest index whose anchored, case-insensitive pattern compiles and matches, and nothing exactly when no pattern does |
| Patterns.MatchPatterns | faq_skeleton.py:233-241 | the loop with its early return computes the first hit, skipping patterns that raise `re.error` |
| Patterns.FirstHitUnique | faq_skeleton.py:233-241 | the characterisation of phase 1 determines its result |
| Patterns.MalformedPatternIsolated | faq_skeleton.py:234-241 | inserting a pattern that does not compile anywhere changes only the numbering of the winning pattern |
| Fuzzy.GroupCandidatesExactly | faq_skeleton.py:245-248 | a triple is a candidate of one question group exactly when it is a phrasing of it scored by `fuzz.ratio` at 50 or more |
| Fuzzy.CandidatesExactly | faq_skeleton.py:243-248 | the candidate list holds exactly the eligible triples: nothing below the floor, nothing missed |
| Fuzzy.CollectCandidates | faq_skeleton.py:243-248 | the nested loops append the candidates in enumeration order |
| Fuzzy.InsertFacts | faq_skeleton.py:251 | inserting into the sorted list adds the element and nothing else, and puts it first unless the head sorts strictly before it |
| Fuzzy.InsertRanked | faq_skeleton.py:251 | inserting into a ranked list keeps it ranked |
| Fuzzy.SortByKeyRanked | faq_skeleton.py:251 | after the sort, no candidate sorts strictly before an earlier one under the key `(-score, -len(question))` |
| Fuzzy.SortByKeyPermutes | faq_skeleton.py:251 | the sort is a permutation of the candidates |
| Fuzzy.SortHeadIsFirstBest | faq_skeleton.py:251-253 | the head of the sorted list has the top score, the longest phrasing among those, and is the first enumerated of the remaining ties (stability) |
| Fuzzy.FirstBestUnique | faq_skeleton.py:251-253 | only one position qualifies as the first best candidate |
| Knowledge.ContentStep | faq_skeleton.py:40-45 | one more line adds its stripped form to the lines the loader acts on, unless it is blank |
| Knowledge.ContentStripped | faq_skeleton.py:41-45 | every line the loader stores is non-empty and already stripped |
| Knowledge.PatternsOfAppend | faq_skeleton.py:48-50 | a line at block position 0 is appended to the patterns; other lines leave them alone |
| Knowledge.QuestionsOfAppend | faq_skeleton.py:53-58 | a line at block position 2 completes a pair of phrasings with the previous line; other lines leave the questions alone |
| Knowledge.AnswersOfAppend | faq_skeleton.py:61-65 | a line at block position 3 is appended as a one-line answer; other lines leave the answers alone |
| Knowledge.LoadPattern | faq_skeleton.py:48-50 | the pattern branch keeps the loader's state in step with the block structure and moves to the questions |
| Knowledge.LoadQuestion | faq_skeleton.py:53-58 | the question branch keeps the state in step; on the second phrasing it stores the pair and moves to the answer |
| Knowledge.LoadAnswer | faq_skeleton.py:61-65 | the answer branch stores a one-line answer and moves back to a pattern |
| Knowledge.ReadQA | faq_skeleton.py:17-67 | `read_Q_A` returns the patterns, question groups and answer groups the four-line block structure gives to the file's non-blank lines |
| Knowledge.ParseShape | faq_skeleton.py:36-67 | question groups hold two phrasings and answer groups one line; the patterns run one ahead of the answers except at a block boundary, and the questions one ahead only while an answer is awaited |
| Knowledge.CompleteBlocksAligned | faq_skeleton.py:36-67 | a file of whole blocks yields three lists of equal length, one entry per block |
| Knowledge.AnswerAt | faq_skeleton.py:61-65 | the answer of block `i` is its fourth stored line, which is already stripped |
| Knowledge.StoredAnswerLine | faq_skeleton.py:61-65 | in the parsed file, the answer of intent `i` is the stripped last line of block `i` |
| Knowledge.ContentConcat | faq_skeleton.py:40-45 | the lines the loader acts on are computed line by line, so concatenating files concatenates them |
| Knowledge.BlankLineIgnored | faq_skeleton.py:43-45 | a blank line anywhere in the file leaves the knowledge base unchanged |
| Pipeline.Understand | faq_skeleton.py:215-288 | `understand` returns the intent and reply of the three-phase decision on the normalised utterance |
| Pipeline.Fallback | faq_skeleton.py:259-288 | the heuristic phase returns the intent and text the branch table gives for its findings |
| Pipeline.Render | faq_skeleton.py:267-286 | each reply text: the map reply names the location and ends with its map link; the entity reply names the entity and ends with the entity's and the question's search links, separated by a newline and a space; the command reply ends with the entity's search link; the two clarifications are the fixed texts |
| Pipeline.ResponseGenerate | faq_skeleton.py:290-304 | -1 gives the apology, -2 the composed text, and any other intent the joined, stripped answer group, indexed from the end when negative |
| Pipeline.EntityInputIsCleaned | faq_skeleton.py:227-228 | under character-by-character lower-casing, the text `get_entities` parses, `clean_input(utterance1.strip()).lower()`, equals the cleaned utterance of line 228 |
| Pipeline.SortHeadIsCandidate | faq_skeleton.py:253 | the best-ranked candidate is one of the candidates |
| Pipeline.ResolveOnCleaned | faq_skeleton.py:227-261 | under character-by-character lower-casing, the whole decision depends on the utterance only through its cleaned form |
| Pipeline.FallbackShape | faq_skeleton.py:264-288 | the heuristics synthesise (-2, with a text) or give up (-1, without); giving up means the command rule did not fire, and every non-synthesised outcome is the command branch's |
| Pipeline.DecideShape | faq_skeleton.py:215-288 | the intent is -1, -2, or an index of a stored pattern or question group; a reply text accompanies exactly -2 |
| Pipeline.PatternWins | faq_skeleton.py:233-238 | when some pattern matches, phase 1 decides: no reply text, and the index is that of a matching pattern no later than it |
| Pipeline.FuzzySelection | faq_skeleton.py:250-255 | with no pattern match and some candidates, the result is the first best candidate's intent if it reaches the threshold, and -1 otherwise |
| Pipeline.FuzzyAcceptsIff | faq_skeleton.py:252-255 | with no pattern match and some candidates, a stored intent is returned exactly when some candidate reaches the threshold |
| Pipeline.DefaultThresholdBoundary | faq_skeleton.py:252-255 | at the default threshold 60, a first best candidate scoring exactly 60 gives its intent and one scoring 59 gives -1 |
| Pipeline.CandidatesBelowThresholdUnresolved | faq_skeleton.py:252-259 | once some phrasing scores 50 but none reaches the threshold, the result is -1 and the heuristics never run |
| Pipeline.SynthesizedOnlyWithoutCandidates | faq_skeleton.py:259-288 | a synthesised reply means no pattern matched and every phrasing scored under 50, and it is the heuristics' reply |
| Pipeline.QuestionAlwaysAnswered | faq_skeleton.py:271-278 | a question not about a place always gets a reply: links for the first entity and the question, or a request to clarify |
| Pipeline.PlaceQuestionAnswered | faq_skeleton.py:265-270 | a place question with a location gets the map link for the first location |
| Pipeline.PlaceQuestionWithoutLocation | faq_skeleton.py:265-286 | a place question without a location falls through to the command rules |
| Pipeline.HeuristicGivesUp | faq_skeleton.py:280-288 | the heuristics give up only if the command rules do not fire, which requires every token of the cleaned utterance to be a nominal subject |
| Pipeline.StoredAnswer | faq_skeleton.py:300-304 | for intent `i` of a complete block, `response_generate` returns that block's answer line |
| Pipeline.RenderedShape | faq_skeleton.py:264-288 | writing out a decision keeps its intent and gives a text exactly when a reply was composed |
| Pipeline.AnswerOf | faq_skeleton.py:290-304 | for a file of whole blocks, every intent of the shape `understand` produces is accepted by `response_generate`, always gives a reply, and a stored intent gets its block's answer |
| Pipeline.AnswerOfDecision | faq_skeleton.py:215-304 | for a file of whole blocks, whatever `understand` decides, `response_generate` accepts it and replies, with the block's answer line for a stored intent |

## Left out

- `discord_faq.py`, the chat transport around the pipeline, is not part of this model.
- Reading the file (faq_skeleton.py:33-34): `Knowledge.ReadQA` takes the file's lines.
- The module-level globals (faq_skeleton.py:70-75 and 167-174): the knowledge base and the loaded language model are parameters.
- The location matcher's pattern is not rebuilt. Its matches come from the document (`Nlp.Doc.locationMatches`).
- The internals of the regular-expression engine, `fuzz.ratio` and spaCy (tokenising, tagging, parsing, named entities) are foreign. They are parameters, and `fuzz.ratio` is only known to lie in 0..100.
- `main` and every `print` (faq_skeleton.py:240 and 320-331): console I/O. The reported regex error is dropped; the pattern is still skipped.
- `max_matches_to_return` of `understand` is never used by the code, so it is not modelled.
- `list.sort` is a foreign stable sort. `Fuzzy.SortByKey` is a stable insertion sort with the same key, proved ranked, a permutation and stable at the head. The model does not claim it is the same algorithm.
- Text.LowerChar: only ASCII letters are case-mapped. Python's `lower()` also maps other Unicode letters.
- Pipeline.EntityInputIsCleaned: holds for character-by-character lower-casing only, and so do `Pipeline.ResolveOnCleaned`, `Normalizer.LowerCleanInput` and `Text.LowerStrip`. Python's `lower()` maps a Greek capital sigma by context (final sigma). For `"ΑΣ!Β"`, line 228 gives `"αςβ"` but the text `get_entities` parses is `"ασβ"`.
- Normalizer.IsWordChar: `\w` is ASCII letters, digits and `_`. The `regex` module also counts other Unicode letters and digits.
- `\s` is the set of Unicode White_Space characters. `str.isspace` (`Text.IsSpace`) also counts the four separators U+001C to U+001F.
- Pipeline.ResponseGenerate: the precondition excludes indices outside the answer list, where the source raises `IndexError`. `Pipeline.AnswerOfDecision` shows that, for a file of whole blocks, `understand` never produces such an index.
- Pipeline.ResponseGenerate: for intent -2 with no text, which `understand` never produces, it returns `None`, as Python does.
