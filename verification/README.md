# Survey widget logic, modelled in Dafny

This project models the pure logic inside three pieces of a survey-taking UI.

- **Country search of the phone-number dropdown** (`CountryDropdown.tsx`). The search term is scored against every row of the country table with a weighted edit distance. Deletion and substitution cost 1. Insertion costs 0.01 in the last column and 0.5 elsewhere. A row earns a 0.3 factor when the term is a prefix of its name, its English name or its code. The rows are then stably sorted by score when the term is non-empty. Each entry also records whether the English name should be displayed.
- **Contact-info question** (`contact-info-question.tsx`). The answer has five slots: first name, last name, email, phone and company. The model covers how a missing answer defaults, how an edit rewrites the slots (hidden fields are blanked), and how the answer is normalised on submit (the phone slot gets the country code in front, an all-blank answer becomes `[]`). It also covers which inputs are required, which phone pattern applies, and what selecting a country does.
- **Survey state of the mobile SDK** (`state.ts`). Construction defaults, merging response updates into the accumulator, `clear`, `setSurveyId`, `copy` and the single-field setters.

Modules, one file each:

| file | module | what |
|---|---|---|
| `wrappers.dfy` | `Wrappers` | `Option`, `Result` |
| `text.dfy` | `Text` | ASCII lower-casing, the `trim` white-space set, `startsWith` |
| `edit_distance.dfy` | `EditDistance` | the table recurrence as written (`Cell`, `Distance`), the array-filling method `LevenshteinDistance` proved equal to it, and a corrected recurrence (see Findings) |
| `stable_sort.dfy` | `StableSort` | stable ascending insertion sort by a real key |
| `country_ranking.dfy` | `CountryRanking` | per-row score, display-name choice, the ranked list |
| `contact_info.dfy` | `ContactInfo` | slot shaping, submit, required rule, phone pattern, country selection |
| `survey_state.dfy` | `Survey` | the survey state as an immutable record |

Some ranking facts are proved for any distance function `dist`:

- the result is a permutation of the scored table;
- for an empty search, the result is in table order;
- for a non-empty search, it is sorted by distance, and entries with equal distance stay in table order.

So they hold both for `RankAsWritten` (the source's distance) and for `Rank` (the corrected distance).

Stability is stated as follows: for every distance value `k`, the entries with distance `k` appear in the same order in the output as in the input (`StableSort.WithKey`).

The source's `SurveyState` class is modelled as an immutable datatype, and each operation returns the next state. The class only ever rebinds `responseAcc` to a fresh object and never mutates it in place. So the object that `copy()` shares with the original can never change under the copy, and value semantics is exact.

Behaviour of the code that is easy to misread:

- All three distances take the raw, un-lowered search term. Only the prefix tests lower-case it.
- Dialling codes are not unique in the table. The ranking assumes nothing about uniqueness.
- The country table is rebuilt on every render, so the source's in-place write of the display name into `country.name` does not persist between searches. It is modelled as the `displayName` field of each result entry.
- `handleSubmit` reads `fields[index].id` for every slot of the answer. An answer longer than five slots therefore throws a `TypeError`. `ContactInfo.Submit` returns `Failure` in that case.
- `handleSubmit` also returns `[]` for an empty answer array, not only for five blank slots (`ContactInfo.SubmitEmptyIff`).

## Model

| member | source | states |
|---|---|---|
| `EditDistance.InsertionCost` | packages/surveys/src/components/country-selector/CountryDropdown.tsx:206-207 | insertion costs 0.01 exactly in the last column and 0.5 in every other column |
| `EditDistance.Min3` | packages/surveys/src/components/country-selector/CountryDropdown.tsx:208 | `Math.min` of three costs: no larger than any of them and equal to one of them |
| `EditDistance.Cell` | packages/surveys/src/components/country-selector/CountryDropdown.tsx:197-208 | every table cell is non-negative: it is either an index, a diagonal copy, or a non-negative cost added to a non-negative cell |
| `EditDistance.CellBounds` | packages/surveys/src/components/country-selector/CountryDropdown.tsx:197-208 | a cell never exceeds the longer prefix length, and is at least the number of characters of the search left over beyond the candidate's prefix |
| `EditDistance.CellZeroIff` | packages/surveys/src/components/country-selector/CountryDropdown.tsx:197-208 | a cell is 0 exactly when the two prefixes it compares are equal |
| `EditDistance.Distance` | packages/surveys/src/components/country-selector/CountryDropdown.tsx:192-213 | the distance is non-negative and at most the longer length; it is 0 iff the strings are equal; it is the other string's length when one string is empty |
| `EditDistance.DistanceToSelf` | packages/surveys/src/components/country-selector/CountryDropdown.tsx:197-201 | a string is at distance 0 from itself |
| `EditDistance.DistanceAsymmetric` | packages/surveys/src/components/country-selector/CountryDropdown.tsx:203-208 | the distance is asymmetric: "a" to "ab" costs 0.01, "ab" to "a" costs 1 |
| `EditDistance.LevenshteinDistance` | packages/surveys/src/components/country-selector/CountryDropdown.tsx:192-213 | the matrix-filling loops return exactly the recurrence's bottom-right cell |
| `EditDistance.FillRow` | packages/surveys/src/components/country-selector/CountryDropdown.tsx:200-210 | one pass of the inner loop fills row i with the recurrence's cells and leaves every other row alone |
| `EditDistance.CorrectedCell` | packages/surveys/src/components/country-selector/CountryDropdown.tsx:201-208 | with the diagonal kept as one candidate of the minimum, cells are non-negative and at least 0.01 off the diagonal |
| `EditDistance.CorrectedDistance` | packages/surveys/src/components/country-selector/CountryDropdown.tsx:192-213 | the corrected distance is non-negative, and at least 0.01 between strings of different lengths |
| `EditDistance.CorrectedDiagonalZero` | packages/surveys/src/components/country-selector/CountryDropdown.tsx:201 | on equal prefixes, the corrected cell on the diagonal is 0 |
| `EditDistance.CorrectedNeverWorse` | packages/surveys/src/components/country-selector/CountryDropdown.tsx:201-208 | the correction only ever lowers a cell compared with the source's recurrence |
| `EditDistance.AppendCostsLastInsertion` | packages/surveys/src/components/country-selector/CountryDropdown.tsx:206 | with the correction, appending any character to a non-empty search target costs exactly 0.01 |
| `EditDistance.AppendRepeatedCharacter` | packages/surveys/src/components/country-selector/CountryDropdown.tsx:201 | as written, "a" to "aa" costs 1 while "a" to "ab" costs 0.01; corrected, "a" to "aa" costs 0.01 |
| `Text.Lower` | packages/surveys/src/components/country-selector/CountryDropdown.tsx:217-221 | lower-casing keeps the length, maps each character on its own, and leaves no ASCII upper-case letter |
| `Text.SkipSpaces` | packages/surveys/src/components/questions/contact-info-question.tsx:112 | the scan `trim` makes from the front stops at the first character that is not white space, having passed only white space |
| `Text.SkipSpacesBack` | packages/surveys/src/components/questions/contact-info-question.tsx:112 | the scan `trim` makes from the back stops after the last character that is not white space, never going below the front scan's stop |
| `Text.Trim` | packages/surveys/src/components/questions/contact-info-question.tsx:112 | `trim` keeps exactly the characters between the leading and the trailing white space, in order; the result neither starts nor ends with white space, and is empty iff the string is all white space |
| `Text.TrimEmptyIffBlank` | packages/surveys/src/components/questions/contact-info-question.tsx:112 | `item.trim() === ""` holds exactly when every character is white space |
| `StableSort.SortBy` | packages/surveys/src/components/country-selector/CountryDropdown.tsx:231-233 | the sort keeps the length, is a permutation of its input, and is ascending by distance |
| `StableSort.InsertKeepsSorted` | packages/surveys/src/components/country-selector/CountryDropdown.tsx:232 | inserting into a sorted list keeps it sorted |
| `StableSort.InsertKeepsKeyOrder` | packages/surveys/src/components/country-selector/CountryDropdown.tsx:232 | an insertion appends the element after the others of equal distance and moves no element past one of equal distance |
| `StableSort.SortByIsStable` | packages/surveys/src/components/country-selector/CountryDropdown.tsx:232 | for every distance value, the elements with that value leave the sort in the order they entered it |
| `CountryRanking.CodePrefix` | packages/surveys/src/components/country-selector/CountryDropdown.tsx:222 | the code-prefix argument is the search term itself when non-empty, and "+" only when the search is empty |
| `CountryRanking.HasPrefixBonus` | packages/surveys/src/components/country-selector/CountryDropdown.tsx:220-226 | the empty search passes the prefix tests for every row; any other search passes when its lower-cased form prefixes either lower-cased name or the raw term prefixes the code |
| `CountryRanking.Score` | packages/surveys/src/components/country-selector/CountryDropdown.tsx:217-229 | the score is the minimum of the three distances, multiplied by 0.3 when a prefix test holds and unscaled otherwise; the English name is used iff it is strictly closer than the local name and no farther than the code; the displayed name follows that flag |
| `CountryRanking.EnglishNameShownOnlyWhenClosest` | packages/surveys/src/components/country-selector/CountryDropdown.tsx:223-225 | the English name is displayed only when its distance is the row's unscaled minimum and beats the local name |
| `CountryRanking.CodePrefixTest` | packages/surveys/src/components/country-selector/CountryDropdown.tsx:222 | for a non-empty search the code test is exactly `code.startsWith(search)`; for the empty search it is `code.startsWith("+")` |
| `CountryRanking.EmptySearchAlwaysScaled` | packages/surveys/src/components/country-selector/CountryDropdown.tsx:220-228 | with an empty search every row passes a prefix test and is scaled by 0.3 |
| `CountryRanking.RankWith` | packages/surveys/src/components/country-selector/CountryDropdown.tsx:215-235 | one entry per table row, a permutation of the scored table; an empty search keeps table order, a non-empty one is ascending by distance |
| `CountryRanking.RankTiesKeepTableOrder` | packages/surveys/src/components/country-selector/CountryDropdown.tsx:231-233 | for a non-empty search, entries of equal distance keep their table order |
| `CountryRanking.EveryEntryIsItsRowsScore` | packages/surveys/src/components/country-selector/CountryDropdown.tsx:216-233 | every entry of the result is the score of its own country row |
| `CountryRanking.RankPermutesTable` | packages/surveys/src/components/country-selector/CountryDropdown.tsx:215-235 | the result's countries are the table's rows, each as often as in the table (the discarded `slice(0, 3)` removes nothing) |
| `CountryRanking.RankProperties` | packages/surveys/src/components/country-selector/CountryDropdown.tsx:215-235 | for any distance, the ranked countries are the table's rows, every entry is its own row's score, and the empty search leaves the rows in table order |
| `CountryRanking.RankAsWritten` | packages/surveys/src/components/country-selector/CountryDropdown.tsx:215-235 | the list rendered with the source's distance: every table row once, each entry its own row's score, ascending by distance for a non-empty search and in table order for the empty one |
| `CountryRanking.Rank` | packages/surveys/src/components/country-selector/CountryDropdown.tsx:215-235 | the same guarantees as `RankAsWritten`, with the corrected distance |
| `ContactInfo.IndexOf` | packages/surveys/src/components/questions/contact-info-question.tsx:69-95 | each field has its own slot among the five, in the order first name, last name, email, phone, company |
| `ContactInfo.SafeValue` | packages/surveys/src/components/questions/contact-info-question.tsx:65-67 | a stored answer is used as is; a missing one becomes five empty slots |
| `ContactInfo.HandleChange` | packages/surveys/src/components/questions/contact-info-question.tsx:97-106 | an edit yields exactly five slots; the edited field holds the typed value whether shown or not; every other shown field keeps its old slot (empty if missing) and every other hidden field is blanked |
| `ContactInfo.ChangeIsPointUpdate` | packages/surveys/src/components/questions/contact-info-question.tsx:97-104 | with all fields shown and a five-slot answer, an edit changes the edited slot and nothing else |
| `ContactInfo.ChangeIdempotent` | packages/surveys/src/components/questions/contact-info-question.tsx:97-104 | repeating an edit changes nothing |
| `ContactInfo.ChangesOfShownFieldsCommute` | packages/surveys/src/components/questions/contact-info-question.tsx:97-104 | edits of two different shown fields give the same answer in either order |
| `ContactInfo.Submit` | packages/surveys/src/components/questions/contact-info-question.tsx:112-124 | submitting throws exactly when the answer has more than five slots; five blank slots submit `[]`; otherwise the submitted list has the answer's length, the phone slot becomes `code + " " + phone`, and every other slot is unchanged |
| `ContactInfo.SubmitEmptyIff` | packages/surveys/src/components/questions/contact-info-question.tsx:112-124 | the submitted list is `[]` exactly when the answer is five blank slots or the answer is empty |
| `ContactInfo.SubmitAfterChangeSucceeds` | packages/surveys/src/components/questions/contact-info-question.tsx:98-124 | an answer produced by an edit never makes submit throw |
| `ContactInfo.EveryOptional` | packages/surveys/src/components/questions/contact-info-question.tsx:193 | `every(f => !f.required)` holds exactly when no listed field is required |
| `ContactInfo.ShownOf` | packages/surveys/src/components/questions/contact-info-question.tsx:193 | `filter(f => f.show)` keeps exactly the shown fields |
| `ContactInfo.IsFieldRequired` | packages/surveys/src/components/questions/contact-info-question.tsx:186-200 | a field is required iff its own flag is set, or the question is required and no shown field is required |
| `ContactInfo.RequiredQuestionRequiresAShownField` | packages/surveys/src/components/questions/contact-info-question.tsx:191-197 | a required question with a shown field always requires at least one shown field |
| `ContactInfo.OptionalQuestionKeepsFieldFlags` | packages/surveys/src/components/questions/contact-info-question.tsx:186-200 | for an optional question each field is required exactly when its own flag says so |
| `ContactInfo.PatternFor` | packages/surveys/src/components/questions/contact-info-question.tsx:204-210 | the '+'-then-digits pattern applies exactly when no country code is selected |
| `ContactInfo.Matches` | packages/surveys/src/components/questions/contact-info-question.tsx:204-210 | `^\+[0-9]+$` accepts exactly a '+' followed by a non-empty run of digits, and `^[0-9]+$` exactly a non-empty run of digits |
| `ContactInfo.PlusPatternIsPlusThenDigitsPattern` | packages/surveys/src/components/questions/contact-info-question.tsx:204-210 | a phone is valid without a country iff it is '+' followed by a phone valid with one |
| `ContactInfo.PatternsDisjoint` | packages/surveys/src/components/questions/contact-info-question.tsx:204-210 | no input is valid both with and without a selected country |
| `ContactInfo.SelectCountry` | packages/surveys/src/components/questions/contact-info-question.tsx:52 | selecting a country sets the code, and the button text is the flag, a space, then exactly that code |
| `ContactInfo.PatternFollowsSelection` | packages/surveys/src/components/questions/contact-info-question.tsx:49-52 | before any selection, and after the empty selection, a '+' is required; after selecting a non-empty code, digits only |
| `Survey.EmptyAccumulator` | packages/react-native/src/lib/survey/state.ts:8 | the initial accumulator is unfinished, has no display id and holds no answers, timings or variables |
| `Survey.New` | packages/react-native/src/lib/survey/state.ts:4-21 | a fresh state has the given survey, single-use, response and user ids (omitted means none), no display id, and the initial accumulator |
| `Survey.Clear` | packages/react-native/src/lib/survey/state.ts:94-97 | clear drops the response id and resets the accumulator, and leaves survey, user, display and single-use ids untouched |
| `Survey.SetSurveyId` | packages/react-native/src/lib/survey/state.ts:27-30 | switching survey sets the survey id and otherwise gives the post-clear state |
| `Survey.Copy` | packages/react-native/src/lib/survey/state.ts:34-44 | a copy has equal survey, single-use, response and user ids and the same accumulator, but no display id |
| `Survey.UpdateResponseId` | packages/react-native/src/lib/survey/state.ts:50-52 | sets the response id and changes nothing else |
| `Survey.UpdateDisplayId` | packages/react-native/src/lib/survey/state.ts:58-60 | sets the display id and changes nothing else |
| `Survey.UpdateUserId` | packages/react-native/src/lib/survey/state.ts:66-68 | sets the user id and changes nothing else |
| `Survey.Accumulate` | packages/react-native/src/lib/survey/state.ts:74-82 | answers are merged: keys of the update take its values, other old keys are kept; finished, timings, variables and the accumulator's display id are the update's own; every top-level id is unchanged |
| `Survey.IsResponseFinished` | packages/react-native/src/lib/survey/state.ts:87-89 | reports the finished flag of the accumulated response, which is false for the initial accumulator |
| `Survey.AccumulateAllLatestWins` | packages/react-native/src/lib/survey/state.ts:74-82 | after a run of updates a key is answered iff it was answered before or by some update, and it holds the answer of the last update that gave one |
| `Survey.AccumulateAllFinished` | packages/react-native/src/lib/survey/state.ts:74-89 | after a non-empty run of updates the response is finished exactly when the last update says so |
| `Survey.AccumulateIdempotent` | packages/react-native/src/lib/survey/state.ts:74-82 | accumulating the same update twice is accumulating it once |
| `Survey.NotFinishedAfterConstructionOrClear` | packages/react-native/src/lib/survey/state.ts:87-97 | a fresh state and a just-cleared state are not finished |
| `Survey.ClearForgetsResponse` | packages/react-native/src/lib/survey/state.ts:94-97 | clearing erases any earlier accumulation and response id, and clearing twice is clearing once |
| `Survey.SetSurveyIdStartsOver` | packages/react-native/src/lib/survey/state.ts:27-30 | switching survey equals a fresh construction for the new survey with no response id, keeping the user, single-use and display ids |
| `Survey.CopyDropsOnlyDisplayId` | packages/react-native/src/lib/survey/state.ts:34-44 | a copy equals its original exactly when the original has no display id, and copying twice is copying once |
| `Survey.CopyThenAccumulate` | packages/react-native/src/lib/survey/state.ts:34-44 | a copy shares the original's accumulator value, and copying commutes with accumulating |

## Left out

- All rendering, DOM and event plumbing: JSX, dropdown positioning and focus, key and click listeners, and preact hook state. The one exception is the effect of the empty selection that Enter on an empty search makes, which `ContactInfo.PatternFollowsSelection` covers. `CountrySelector.tsx` is pure rendering and is not modelled.
- Time-to-completion tracking (`performance.now`, `useTtc`, `getUpdatedTtc`): these are clock reads and helpers outside this model.
- Localised text (`getLocalizedValue`, `placeholder[languageCode]`), the trailing `*` on required placeholders, the email input type, and the two validation `title` strings. They are display text only.
- Floating point: distances are exact `real`s, so 0.01, 0.5 and 0.3 are exact. The JavaScript results differ from the model only by IEEE-754 rounding, which could in principle reorder entries whose distances are nearly equal.
- `Text.Lower`: lower-cases ASCII letters only, because full Unicode `toLowerCase` (including length-changing mappings) is not modelled.
- Strings are sequences of Unicode scalar values, not UTF-16 code units. For characters outside the Basic Multilingual Plane, lengths and therefore distances differ from JavaScript's.
- The regular-expression engine: the two phone patterns are stated directly as predicates. The browser's rule that a pattern is not checked on an empty input is not modelled.
- The 174-row country literal: the ranking is parametrised over any table.
- The wrapping of answers into `{ [question.id]: value }` for `onChange` and `onSubmit`: the model returns the value itself.
- The optional fields of a response update that `accumulateResponse` never reads.
- `Survey.Accumulate`: timings and variables are always present maps. An update that omits them, which would leave `undefined` in the accumulator, is not modelled.
- No top-N limit is modelled: the source computes `slice(0, 3)` and discards the result, so the rendered list is the full ranking.

## Findings

| source | as written | input that shows it | evidently intended | confidence | as-written member | corrected member |
|---|---|---|---|---|---|---|
| packages/surveys/src/components/country-selector/CountryDropdown.tsx:201 | when the two characters agree, the cell copies its diagonal neighbour without comparing it with the deletion and the cheap insertion moves, which is only optimal when every move costs 1 | search "a" against candidate "aa": distance 1, while against "ab" it is 0.01 | appending one character to the end of the candidate costs the last-column insertion (0.01) whatever the character, as it does for "ab" | medium; not executed | `EditDistance.AppendRepeatedCharacter` | `EditDistance.AppendCostsLastInsertion` |

`EditDistance.CorrectedCell` keeps the diagonal as one candidate of the minimum in every cell. `CountryRanking.Rank` ranks with this corrected distance. `CountryRanking.RankAsWritten` ranks with the source's distance. Every ranking property above holds for both.
