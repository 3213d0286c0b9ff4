# MedGemma discharge-instruction simplifier: the deterministic core

This project models the deterministic Python code that surrounds the
language-model calls of the discharge-instruction simplification experiments.
It also states and proves properties of that model. There are two groups.

**Stage-1 content normalizers.** Each sorts clinical text into three fixed
sections: MEDICATION, CARE INSTRUCTIONS and URGENT WARNING SIGNS.

- `normalize_content_v2` (C-v3, module `StageOneParser`):
  - splits on `.` and `-`;
  - drops stripped fragments shorter than 10 characters;
  - classifies each kept fragment with ordered, case-insensitive pattern groups;
  - joins each section with single spaces, or writes a placeholder when the section is empty.
- `deterministic_normalize` (B-v2, module `ContentNormalizer`):
  - splits at whitespace that follows `.`, `!` or `?`;
  - classifies by lowercase keywords;
  - deduplicates each bucket, keeping first occurrences;
  - renders one `- item` line per entry.
- `normalize_content` (B-v4, module `IsolationNormalizer`) is a near pass-through.

**Checks and bookkeeping around generation.**

- The output-quality flags (module `Quality`): the inclusive target band [4.5, 5.5], repetition, reasoning leak, vocabulary-overlap hallucination risk, the fixed hallucination phrases, and the A-v2 ">3 occurrences" report.
- The C-v3 comparison with the B series (module `StageOneParser`).
- The A-series scenario loop and its summary (module `Harness`). The scripts A, A-v2 and A-v6 share this logic.
- The D-v5 status chain IMPROVED / NOW MEETS TARGET / SAME / WORSE (module `SimplifiedPrompt`).

Modules `Text`, `Sections` and `Options` hold what the others share:

- Python's `str.strip`, `str.split()`, `re.split` on a character class, `"sep".join` and `set(...)` over `seq<char>`;
- the three-section layout;
- the "strip, test, append" selection loop, as a specification function.

Where a Python function updates lists in a loop, the model is a `method` with a `while` loop. Its invariants are proved against a specification function, and the properties are lemmas about that function. The filing loops of `normalize_content_v2` and `deterministic_normalize` are methods of their own (`FileStatements`, `FileSentences`) that the normalizer calls, and the body of the A-series scenario loop is the method `RecordScenario`; they do exactly what the inline code does.

Generated text, the Flesch-Kincaid grade and the model itself are inputs:

- the decoded outputs are given strings;
- the grade is a given `real`, or a given function from text to `real`.

Observations the proofs make precise:

- The comparisons measure distance from 4.95, not from the band's midpoint 5.0. So, against some earlier grade, a grade can newly meet the target without being closer. For any earlier grade this needs a grade in (5.4, 5.5], both in the C-v3 comparison and in the D-v5 status chain.
- With the five recorded B grades, C-v3 never reports a newly met target that is not Better.
- With the five recorded B/C grades, D-v5 never reports NOW MEETS TARGET for any grade.
- `normalize_content_v2` keeps repeated statements: a statement that occurs twice appears twice in its section.
- For the batch with grades 5.8, 4.8, 5.1, 3.5 and 3.6:
  - the code's mean reduction is 9.52 − 4.56 = 4.96;
  - two results fall in the band.

## Model

Several scripts repeat the same code, and each row below cites one copy. The quality flags of `src/test_c_v3_improved_stage1_parser.py` (lines 236-240) recur in `src/test_b_v4_single_scenario_Isolation.py` (lines 170-174) and `src/test_d_v5_simplified_prompt.py` (lines 145-149). The scenario loop and summary of `src/test_a_v2_reading_level_optimization.py` recur in `src/test_a_reading_level_optimization.py` (lines 120-188 and 202-205) and `src/test_a_v6_readig_level_optimization.py` (lines 127-200 and 219-222).

| member | source | states |
|---|---|---|
| Text.Strip | src/test_c_v3_improved_stage1_parser.py:70 | `str.strip()`: the result is the slice left after removing the leading and trailing whitespace runs, and it starts and ends with non-whitespace |
| Text.Lower | src/test_c_v3_improved_stage1_parser.py:240 | `str.lower()`: same length, each character mapped to its lowercase form |
| Text.WordsRoundTrip | src/test_c_v3_improved_stage1_parser.py:239 | `str.split()` loses only whitespace: putting the whitespace runs back between the tokens gives the input |
| Text.WordsAreRuns | src/test_c_v3_improved_stage1_parser.py:239 | `str.split()` cuts at whole whitespace runs: every token is non-empty and has no whitespace, every run is all whitespace, and every run between two tokens is non-empty |
| Text.SplitOn | src/test_c_v3_improved_stage1_parser.py:67 | `re.split` on a character class: at least one piece, and no piece contains a delimiter |
| Text.SplitOnRoundTrip | src/test_c_v3_improved_stage1_parser.py:67 | putting the removed delimiters back between the pieces gives the input |
| Text.SplitOnJoin | src/test_b_v2_content_normalizer.py:85 | splitting a `"\n".join` of newline-free items at newlines gives the items back |
| Text.SetSizeDistinct | src/test_c_v3_improved_stage1_parser.py:239 | `len(set(xs)) <= len(xs)`, with equality exactly when no element repeats |
| Sections.SelectCharacterization | src/test_c_v3_improved_stage1_parser.py:69-104 | the "strip, test, append" loop keeps exactly the accepted stripped pieces, each once, in source order |
| Sections.SelectMultiplicity | src/test_c_v3_improved_stage1_parser.py:69-104 | a statement occurs in a section as often as accepted pieces strip to it: repeats are kept |
| StageOneParser.HasDose | src/test_c_v3_improved_stage1_parser.py:77 | `\d+\s*mg`: a statement with a dose has a digit |
| StageOneParser.HasCondition | src/test_c_v3_improved_stage1_parser.py:92 | "if", whitespace, then you, pain, fever or symptom(s), ignoring case: a matching statement contains "if" in some case |
| StageOneParser.IsMedicationStatement | src/test_c_v3_improved_stage1_parser.py:76-84 | definition: one of the five medication patterns matches, ignoring case; Classify and MedicationBeforeWarning state its use |
| StageOneParser.IsWarningStatement | src/test_c_v3_improved_stage1_parser.py:90-98 | definition: one of the five warning patterns matches, ignoring case; Classify states its use |
| StageOneParser.Classify | src/test_c_v3_improved_stage1_parser.py:74-104 | first match wins: medication iff a medication pattern matches; warning iff none does and a warning pattern does; care otherwise |
| StageOneParser.FileStatements | src/test_c_v3_improved_stage1_parser.py:69-104 | the statement loop fills each section with exactly the stripped fragments of at least ten characters filed under it, in source order |
| StageOneParser.NormalizeContentV2 | src/test_c_v3_improved_stage1_parser.py:48-125 | the loop and the `+=` build give the three headers in order, each followed by its space-joined statements or its placeholder |
| StageOneParser.SectionStatementsAreFragments | src/test_c_v3_improved_stage1_parser.py:67-104 | every statement in a section is a stripped fragment between `.`/`-` delimiters, at least 10 characters long, with no delimiter, and classified into that section |
| StageOneParser.ExactlyOneSection | src/test_c_v3_improved_stage1_parser.py:69-104 | each kept fragment lands in exactly one section; a dropped fragment lands in none |
| StageOneParser.RepeatsKept | src/test_c_v3_improved_stage1_parser.py:69-104 | no deduplication: a section holds every repeat of a statement |
| StageOneParser.PlaceholderIffEmpty | src/test_c_v3_improved_stage1_parser.py:107-123 | a section body is its placeholder exactly when the section has no statements |
| StageOneParser.FragmentsRoundTrip | src/test_c_v3_improved_stage1_parser.py:67 | the fragments and the removed delimiters put together give the input |
| StageOneParser.MedicationBeforeWarning | src/test_c_v3_improved_stage1_parser.py:84-100 | a statement matching both groups goes to medication |
| StageOneParser.ShortFragmentDropped | src/test_c_v3_improved_stage1_parser.py:67-72 | in "Take 1-2 tablets orally." the fragment "Take 1" is dropped and only "2 tablets orally" is kept, as medication |
| StageOneParser.Compare | src/test_c_v3_improved_stage1_parser.py:278-284 | Better iff strictly closer to 4.95 than the earlier grade, Worse iff strictly farther; newly met iff in band now and not before |
| StageOneParser.CompareToBSeries | src/test_c_v3_improved_stage1_parser.py:268-284 | a comparison exists iff the scenario has a B result, and it compares with that result |
| StageOneParser.NewlyMetButNotBetter | src/test_c_v3_improved_stage1_parser.py:278-284 | for any earlier grade, a newly met target that is not Better needs a grade in (5.4, 5.5] |
| StageOneParser.NewlyMetButNotBetterReachable | src/test_c_v3_improved_stage1_parser.py:278-284 | that case occurs: 5.5 against an earlier 4.4 is newly met and Same |
| StageOneParser.NewlyMetIsBetter | src/test_c_v3_improved_stage1_parser.py:268-284 | for every scenario with a recorded B grade and every grade, a newly met target is Better |
| StageOneParser.NeverNewlyMetWhenPreviouslyMet | src/test_c_v3_improved_stage1_parser.py:268-284 | Diabetes and Hip Surgery never report a newly met target |
| Quality.TargetMet | src/test_c_v3_improved_stage1_parser.py:236 | the band is the grades within 0.5 of 5.0 |
| Quality.TargetBandInclusive | src/test_c_v3_improved_stage1_parser.py:236 | the band [4.5, 5.5] includes both ends and nothing outside |
| Quality.HasRepetition | src/test_c_v3_improved_stage1_parser.py:239 | the repetition flag holds iff the token list has a repeat |
| Quality.RepetitionIffRepeatedToken | src/test_c_v3_improved_stage1_parser.py:239 | the repetition flag holds iff some case-sensitive token occurs at two positions |
| Quality.RepetitionCountsDistinctTokens | src/test_c_v3_improved_stage1_parser.py:239 | the flag holds iff there are fewer distinct tokens than tokens |
| Quality.HasReasoning | src/test_c_v3_improved_stage1_parser.py:240 | "<unused" anywhere raises the reasoning flag; a raised flag needs "<unused" or a "thought" in the lowercased text |
| Quality.ReasoningIffMarker | src/test_c_v3_improved_stage1_parser.py:240 | the reasoning flag holds iff "<unused" occurs anywhere or "thought" lies within the first 100 lowercased characters |
| Quality.ReasoningSurvivesAppend | src/test_c_v3_improved_stage1_parser.py:240 | appending text never clears the reasoning flag |
| Quality.Vocabulary | src/test_c_v3_improved_stage1_parser.py:243-244 | `set(text.lower().split())`: exactly the lowercased tokens, no more of them than tokens |
| Quality.HallucinationRisk | src/test_c_v3_improved_stage1_parser.py:247-250 | a raised risk flag needs more than 15 distinct lowercased output tokens |
| Quality.RiskNeedsManyTokens | src/test_c_v3_improved_stage1_parser.py:243-250 | a raised risk flag means more than 15 distinct lowercased output tokens |
| Quality.NoRiskWhenVocabularyCovered | src/test_c_v3_improved_stage1_parser.py:243-250 | no risk when every output token is in the Stage-1 text or the common words |
| Quality.RiskAntitoneInStageOne | src/test_c_v3_improved_stage1_parser.py:243-250 | a larger Stage-1 vocabulary can only lower the risk |
| Quality.LikelyHallucination | src/test_d_v5_simplified_prompt.py:152-156 | the shortest phrase has nine characters, so a shorter text is never flagged |
| Quality.LikelyHallucinationPersists | src/test_d_v5_simplified_prompt.py:152-156 | once one of the six phrases occurs (any case), surrounding text keeps the flag raised |
| Quality.LikelyHallucinationExample | src/test_d_v5_simplified_prompt.py:152-156 | the phrase test ignores case: "Watch for DIZZINESS." is flagged |
| Quality.RepeatedWords | src/test_a_v2_reading_level_optimization.py:204 | only tokens of the list are reported, and a list of at most three tokens reports nothing |
| Quality.ReportedRepetition | src/test_a_v2_reading_level_optimization.py:202-206 | only lowercased tokens of the text are reported, each occurring more than three times |
| Quality.GuardNeverSuppresses | src/test_a_v2_reading_level_optimization.py:202-206 | a lowercased token is reported iff it occurs more than 3 times; the any-duplicate guard never hides a report |
| ContentNormalizer.ReplaceNewlines | src/test_b_v2_content_normalizer.py:44 | every newline becomes a space and every other character is kept |
| ContentNormalizer.SplitSentences | src/test_b_v2_content_normalizer.py:47 | `re.split` always returns at least one sentence |
| ContentNormalizer.SentenceSplitRoundTrip | src/test_b_v2_content_normalizer.py:47 | putting the removed gaps back between the sentences gives the cleaned text |
| ContentNormalizer.SentenceCutsAtEnders | src/test_b_v2_content_normalizer.py:47 | every removed gap is a non-empty whitespace run, every sentence but the last ends with `.`, `!` or `?`, and every sentence after the first is empty or starts with non-whitespace (`\s+` takes the whole run) |
| ContentNormalizer.SentencesStartAfterGaps | src/test_b_v2_content_normalizer.py:47 | the greedy `\s+`: no sentence after the first starts with whitespace |
| ContentNormalizer.SentencesHaveNoBoundary | src/test_b_v2_content_normalizer.py:47 | no sentence contains whitespace right after an ender: the split misses no match |
| ContentNormalizer.BucketOf | src/test_b_v2_content_normalizer.py:52-66 | medication iff a medication keyword occurs; warning iff none does and a warning keyword does; care otherwise |
| ContentNormalizer.FileSentences | src/test_b_v2_content_normalizer.py:50-66 | the loop fills each bucket with exactly the stripped sentences of that bucket, in order |
| ContentNormalizer.Deduped | src/test_b_v2_content_normalizer.py:69-76 | the deduplicated list is no longer than the input and holds only its elements |
| ContentNormalizer.Dedupe | src/test_b_v2_content_normalizer.py:69-76 | the loop with `seen` and `out` yields the first-occurrence deduplication: no repeats, same elements |
| ContentNormalizer.DedupedCharacterization | src/test_b_v2_content_normalizer.py:69-76 | the deduplicated list has no repeats, exactly the input's elements, in first-occurrence order |
| ContentNormalizer.DedupedIdempotent | src/test_b_v2_content_normalizer.py:69-76 | deduplicating twice changes nothing |
| ContentNormalizer.DedupedOfDistinct | src/test_b_v2_content_normalizer.py:69-76 | a list without repeats is unchanged |
| ContentNormalizer.DeterministicNormalize | src/test_b_v2_content_normalizer.py:33-92 | the result is the three headers, each followed by the "- item" lines of its deduplicated bucket |
| ContentNormalizer.NoFabrication | src/test_b_v2_content_normalizer.py:52-90 | every rendered item is a stripped sentence of the input, has no newline, and belongs to the bucket of its keywords |
| ContentNormalizer.RenderedLines | src/test_b_v2_content_normalizer.py:83-90 | a non-empty bucket renders as exactly one "- item" line per distinct entry |
| ContentNormalizer.BulletsEmptyIff | src/test_b_v2_content_normalizer.py:83-90 | an empty bucket renders as nothing, with no placeholder |
| ContentNormalizer.WhitespaceOnlyInput | src/test_b_v2_content_normalizer.py:44-66 | blank input gives one empty sentence, filed as care and rendered as "- " |
| IsolationNormalizer.NormalizeContent | src/test_b_v4_single_scenario_Isolation.py:76-100 | the result is the document with the input as medication iff "mg" occurs, the input as care, and the fixed warning; the line loop has no effect on it |
| IsolationNormalizer.IsolatedDocument | src/test_b_v4_single_scenario_Isolation.py:93-98 | the document is as long as the three headers, the fixed warning and the input once, plus the input again when it mentions "mg" |
| IsolationNormalizer.MedicationSectionIffMilligrams | src/test_b_v4_single_scenario_Isolation.py:93-94 | the medication section is the whole input when the lowercased input contains "mg", and empty otherwise |
| IsolationNormalizer.CareIsInputAndWarningIsFixed | src/test_b_v4_single_scenario_Isolation.py:95-98 | the care section is the unmodified input, and the document always ends with the fixed warning |
| IsolationNormalizer.IsolatedDocumentInjective | src/test_b_v4_single_scenario_Isolation.py:92-98 | different inputs give different documents: the output determines the input |
| Harness.ResultFor | src/test_a_v2_reading_level_optimization.py:192-213 | the record of scenario `idx` has baseline entry `idx-1`, reduction baseline − grade, and `target_met` iff 4.5 ≤ grade ≤ 5.5 |
| Harness.RecordScenario | src/test_a_v2_reading_level_optimization.py:183-213 | one pass of the loop body appends the scenario's record when its stripped output is non-blank, and nothing otherwise |
| Harness.RunScenarios | src/test_a_v2_reading_level_optimization.py:140-214 | the loop appends exactly the specified records |
| Harness.Accumulated | src/test_a_v2_reading_level_optimization.py:147-214 | the results over a prefix of the scenarios: never more results than scenarios |
| Harness.AccumulatedCharacterization | src/test_a_v2_reading_level_optimization.py:147-214 | the k-th result is the record of the k-th scenario with non-blank output |
| Harness.ResultsFollowScenarios | src/test_a_v2_reading_level_optimization.py:190-214 | a scenario's record is among the results iff its output is non-blank; there are at most as many results as scenarios |
| Harness.Summarize | src/test_a_v2_reading_level_optimization.py:228-231 | the summary fails (division by zero) iff there are no results |
| Harness.SummaryOfRun | src/test_a_v2_reading_level_optimization.py:228-231 | `avg_reduction` is the mean reduction and `target_count` the number of in-band results, at most five |
| Harness.NoOutputNoSummary | src/test_a_v2_reading_level_optimization.py:190-231 | when no scenario produces text there are no results and the summary fails |
| Harness.BatchExample | src/test_a_v2_reading_level_optimization.py:228-231 | grades 5.8, 4.8, 5.1, 3.5, 3.6 give means 9.52 and 4.56, reduction 4.96, two in band |
| SimplifiedPrompt.DecideStatus | src/test_d_v5_simplified_prompt.py:188-201 | exactly one status, in order: IMPROVED iff strictly closer than the better previous grade; then NOW MEETS TARGET iff in band and both previous grades missed; then SAME on a tie; else WORSE |
| SimplifiedPrompt.ScenarioStatus | src/test_d_v5_simplified_prompt.py:172-186 | a status is printed iff the scenario has previous results |
| SimplifiedPrompt.NowMeetsTargetOnlyNearTop | src/test_d_v5_simplified_prompt.py:188-197 | NOW MEETS TARGET needs a grade in (5.4, 5.5] |
| SimplifiedPrompt.NowMeetsTargetNeverReported | src/test_d_v5_simplified_prompt.py:172-197 | for the five recorded scenarios NOW MEETS TARGET is never reported |
| SimplifiedPrompt.NowMeetsTargetReachable | src/test_d_v5_simplified_prompt.py:188-197 | with other previous grades (4.4 and 4.4) a grade of 5.5 does get NOW MEETS TARGET |

## Left out

- Model loading, token retrieval, device placement and network download are I/O and foreign calls. This covers `download_medgemma.py`.
- Generation (`apply_chat_template`, `generate`, `decode`) is a foreign call. Its decoded text is an input.
- `textstat.flesch_kincaid_grade` is a foreign library. The grade is an input `real`, or a function from text to `real`.
- `test_medgemma.py`, `medgemma_baseline_test.py` and `test_b_content_normalizer.py` are not part of this model. They only wrap the model and the grade library, or send Stage 1 as a prompt.
- Console output is presentation: `:.1f` rounding, emoji, the "/5" row, the NEXT STEP listings, and the `repeated[:3]` slice of the report.
- Grades and averages are exact `real`s. Floating-point rounding is not modelled.
- Whitespace is ASCII whitespace (space, `\t` to `\r`, `\x1c` to `\x1f`). Case folding is ASCII lowercase. Unicode whitespace and non-ASCII case mappings are not modelled.
- IsDigit covers only `0` to `9`, while Python's `\d` in `\d+\s*mg` and `q\d+` (C-v3 lines 77 and 79) also matches other Unicode decimal digits.
- The single-scenario scripts (B-v4, C-v3, D-v5) compute the flags and the comparison only when the decoded text is non-empty. The model states the flags for any text.
- `reduction = BASELINE_GRADE - grade` in the single-scenario scripts is a printed subtraction and has no member.
- Harness.RunScenarios: requires at most five scenarios, as many as there are baseline grades. The scripts have exactly five, so the `IndexError` a sixth would raise is not modelled.
