# Spelling quiz: grading, generation and attempt store in Dafny

This project models the decision logic of a small spelling-variant quiz
service (`main.py`, a single Flask application). The quiz shows one word per
word group. The user spells each word as it is written in a given country
(US, Canada, Britain, Australia, New Zealand), and the service grades the
answers and records every attempt. The model covers:

- **Quiz generation** (`Quiz`): `select_words` and `generate_quiz_data`
  pick one variant of every word group, in catalog order. Each pick is
  tagged with the group's position and level and then shaped into a question
  with the five spellings, a note that defaults to `""`, and the level. The
  random choice is a parameter `picks` with `0 <= picks[i] < |words|`.
  `Echo` is the JSON object the client receives and sends back.
- **Answer grading** (`Grading`, `GradingFacts`): the loop of
  `check_answers`. It resolves each answer's `wordIndex` in the quiz data the
  client echoed, trims and lower-cases the answer, and compares it with the
  lower-cased expected spelling. The expected spelling is the entry's `ca`
  value when the client's `isLevel1` flag is set. Otherwise it is
  `word[country]`, but only when `country` is a non-empty key of the echoed
  entry; any other answer is skipped. The loop keeps `correct_count` and
  `total_count` and produces one result record per answer.
  `Grading.Judge` grades one answer (main.py:224-257). `GradeAnswers` is the
  loop; `Grade` is the function it is proved against.
- **Score** (`Score`): `round(correct / total * 100)`, or 0 when nothing
  was graded. The average in the statistics uses the same rounding.
  Python's `round` goes to the nearest integer and picks the even one at a
  tie. The model evaluates that rule exactly (`RoundHalfEven`).
- **Client address** (`ClientAddress.Address`, main.py:215-217): the first comma-separated entry of
  `X-Forwarded-For`, trimmed, when that header is non-empty. Otherwise it is
  the connection's address.
- **Attempt store** (`Store`): the two tables `quiz_attempts` and
  `quiz_answers`, held in memory by the class `AttemptStore`.
  `RecordAttempt` runs the insert sequence of `check_answers` as one
  transaction, and `Statistics` is `get_statistics`, computed by
  `Store.StatisticsOf` (main.py:135-157). The predicate `ScoresInRange`
  (every stored score at most 100) is kept by the handler, so the reported
  average never exceeds 100.
- **The handler** (`Submit.CheckAnswers`) puts these together in the
  source's order: address, grading, percentage, save, statistics.

Behaviour of the code that the model keeps on purpose:

- The quiz entries are the client's echo. An entry is modelled as a JSON
  object (`map<string, Field>`), and the country test is key membership, as
  in `country in word`. So the key `"note"` grades the answer against the
  note text. The key `"level"` makes the request fail, because its value is
  a number and has no `.lower()` (`GradingFacts.JudgeEchoed`).
- The level-1 branch follows the client's `isLevel1` flag, not the entry's
  level.
- Only the user's answer is trimmed. The expected spelling is lower-cased
  but not trimmed.
- A Python exception ends the whole request, and nothing is saved. Grading
  therefore returns `Failure` when `word["ca"]` is missing, or when the
  expected value is not a string (`GradeError`).
- A skipped answer keeps `correctAnswer = None`. Saving it violates
  `correct_answer NOT NULL`, so the transaction is never committed. Both
  tables stay as they were and the request fails
  (`Store.AttemptStore.RecordAttempt`, `Submit.SkippedAnswerBlocksSave`).
  The loop skips such an answer on purpose, without counting it
  (main.py:246-249), yet the insert at main.py:288 then writes its `None`
  into `correct_answer`, which is declared NOT NULL (main.py:119).
- A score of 100 does not mean that every graded answer was right: 199 out
  of 200 rounds to 100 (`Score.PerfectScoreWithOneMistake`).

In short, the model follows the code as written: the country is checked
against the keys of the echoed entry, not against the five country codes;
only the user's side of the comparison is trimmed; a malformed answer or a
failed save fails the request instead of being skipped.

## Model

| member | source | states |
|---|---|---|
| `Text.LowerChar` | main.py:226 | ASCII case folding maps exactly the upper-case letters, each 32 code points up ('A' to 'a'), and yields no upper-case letter |
| `Text.TrimLeftShape` | main.py:226 | `lstrip` keeps the suffix of the string that starts at its first non-whitespace character; everything dropped is whitespace |
| `Text.TrimRightShape` | main.py:226 | `rstrip` keeps the prefix that ends at the last non-whitespace character; everything dropped is whitespace |
| `Text.TrimIsSlice` | main.py:234 | `strip` returns a slice of its input, with only whitespace removed at either end, and the result neither starts nor ends with whitespace |
| `Text.TrimKeepsChars` | main.py:217 | `strip` never introduces a character that was not in its input |
| `Text.TrimIgnoresPadding` | main.py:226 | whitespace added around a string does not change what `strip` returns |
| `Text.LowerTrim` | main.py:226 | lower-casing and trimming commute |
| `Text.Trim` | main.py:226-234 | definition of `str.strip()` over ASCII whitespace: `TrimRight(TrimLeft(s))`; characterised by `TrimLeftShape`, `TrimRightShape`, `TrimIsSlice`, `TrimKeepsChars` and `TrimIgnoresPadding` |
| `Text.Lower` | main.py:226-243 | definition of `str.lower()` over ASCII: `LowerChar` applied to every character; characterised by `LowerChar` and `LowerTrim` |
| `Text.Normalize` | main.py:226 | definition of the comparison form `answer.strip().lower()`; characterised by `NormalizeIgnoresCaseAndPadding` and `GradingFacts.AgreesIff` |
| `Text.NormalizeIgnoresCaseAndPadding` | main.py:226 | answers that differ only in case and surrounding whitespace have the same comparison form |
| `ClientAddress.Address` | main.py:215-217 | definition of the client address: the first comma-separated entry of a non-empty `X-Forwarded-For`, trimmed, else the connection address; characterised by `AddressFromHeader`, `AddressWithoutHeader` and `ForwardedAddressShape` |
| `ClientAddress.BeforeComma` | main.py:217 | `split(',')[0]` is the longest comma-free prefix: it is followed by a comma or ends the string |
| `ClientAddress.BeforeCommaSplit` | main.py:217 | for a header `first,rest` with a comma-free `first`, the first field is `first`; a comma-free header is its own first field |
| `ClientAddress.AddressFromHeader` | main.py:215-217 | a non-empty forwarded-for header gives its first entry, trimmed, whatever the connection address |
| `ClientAddress.AddressWithoutHeader` | main.py:215-216 | with no header, or an empty one, the connection address is used unchanged |
| `ClientAddress.ForwardedAddressShape` | main.py:216-217 | an address taken from the header contains no comma and has no surrounding whitespace |
| `Quiz.Shape` | main.py:178-186 | definition of the question dict built from a variant and its group's level, with `get("note", "")`; characterised by `GenerateQuizData` and `GeneratedFromGroups` |
| `Quiz.SelectWords` | main.py:160-169 | one selection per group, in catalog order; selection `i` is the picked variant of group `i`, tagged with `groupIndex = i` and the group's level |
| `Quiz.GenerateQuizData` | main.py:172-188 | one question per group, in catalog order, shaped from the picked variant of that group with the group's level |
| `Quiz.GeneratedFromGroups` | main.py:160-188 | every generated question has its group's level and the five spellings of a variant in that group; a variant without a note gets the note `""` |
| `Quiz.Echo` | main.py:178-186 | the question object has exactly the keys `us`, `ca`, `gb`, `au`, `nz`, `note`, `level` |
| `Grading.Judge` | main.py:224-257 | definition of the verdict on one answer (one iteration of the loop body, a raised exception being a `Failure`); characterised by `JudgeEchoes`, `JudgeLevel1`, `JudgeSkipped`, `JudgeCountry`, `JudgeIgnoresCaseAndPadding` and `GradingFacts.JudgeCorrectIff` |
| `Grading.Grade` | main.py:219-259 | definition of the outcome of the whole loop: the first failing verdict, or all results with the correct and graded counts; characterised by `GradeAllShape`, `GradeBounds`, `GradingFacts.GradeResultsEcho`, and implemented by `GradeAnswers` |
| `Grading.Verdicts` | main.py:223-228 | one verdict per submitted answer |
| `Grading.VerdictAt` | main.py:223-228 | verdict `i` is the verdict on answer `i` against the entry at its `wordIndex` |
| `Grading.GradeAnswers` | main.py:219-259 | the grading loop returns exactly `Grade`: the first answer that cannot be graded fails the request; otherwise one result per answer with `correct <= total <= number of answers` |
| `Grading.CollectShape` | main.py:223-259 | a sequence of outcomes succeeds exactly when each one does, and then yields their values in order |
| `Grading.CollectFailurePropagates` | main.py:223-259 | once an earlier answer fails, the whole request fails with that error |
| `Grading.CollectStep` | main.py:259 | appending a successfully graded result extends the results by exactly that result |
| `Grading.CollectStopsAt` | main.py:228-255 | the first answer that raises decides the request's error |
| `Grading.GradeAllShape` | main.py:223-259 | grading succeeds iff every answer can be graded; the results are then one per answer, in submission order, result `i` being the verdict on answer `i` |
| `Grading.JudgeEchoes` | main.py:229-235 | a verdict echoes the answer's `wordIndex` and `isLevel1`, records the trimmed answer with its case kept, is correct only if graded, and carries a country only when graded against that country |
| `Grading.CountBounds` | main.py:220-257 | for results in which only graded answers are correct, `correct_count <= total_count <= number of results` |
| `Grading.GradeBounds` | main.py:219-259 | after grading, `0 <= correct_count <= total_count <= len(answers)` and there is one result per answer |
| `Grading.JudgeLevel1` | main.py:237-245 | a level-1 answer fails on a missing or non-string `ca`; otherwise its correct answer is `ca`, it carries no country, and it is correct iff the trimmed lower-cased answer equals the lower-cased `ca` |
| `Grading.JudgeSkipped` | main.py:246-249 | a non-level-1 answer with no country, an empty country, or one that is not a key of the entry is skipped: no correct answer, not correct, no country, not counted |
| `Grading.JudgeCountry` | main.py:246-257 | a non-level-1 answer naming a key of the entry fails if that value is not a string; otherwise it records the country and the expected spelling, counts once, and is correct iff the normalized answer equals the lower-cased spelling |
| `Grading.JudgeIgnoresCaseAndPadding` | main.py:226-256 | answers differing only in case and surrounding whitespace get the same verdict and the same correct answer |
| `Grading.CountStep` | main.py:242-257 | each graded result raises `total_count` by exactly 1, and each correct one raises `correct_count` by 1; a skipped result changes neither |
| `GradingFacts.GradeResultsEcho` | main.py:223-259 | a successful grading has one result per answer, in order, each echoing its answer's `wordIndex` and `isLevel1`, with the trimmed answer as `userAnswer` |
| `GradingFacts.AgreesIff` | main.py:243 | the comparison accepts exactly the answers that are the expected spelling up to case, with only whitespace around it (for a spelling without surrounding whitespace) |
| `GradingFacts.JudgeCorrectIff` | main.py:237-257 | for a correct answer without surrounding whitespace, a graded answer is correct iff it is that correct answer up to case and surrounding whitespace (a padded spelling from the echo can make even the exact answer wrong, since only the user's side is trimmed) |
| `GradingFacts.CountrySpecific` | main.py:248-257 | an answer correct for one country is wrong for another country whose spelling differs (ignoring case) |
| `GradingFacts.Level1RejectsUsSpelling` | main.py:237-245 | for a US spelling without surrounding whitespace, that spelling is wrong at level 1 when it differs from the `ca` spelling (ignoring case) |
| `GradingFacts.JudgeEchoed` | main.py:237-257 | on an echoed question, level 1 grades against `ca`; the keys `us`/`ca`/`gb`/`au`/`nz` grade against their spellings, `note` against the note; `level` fails; any other country is skipped |
| `Score.RoundHalfEven` | main.py:261 | definition of Python's `round` of an exact quotient, also used for the average at main.py:147; characterised by `RoundNearest` and `RoundUnique` |
| `Score.RoundNearest` | main.py:261 | the rounded quotient is within one half of the exact quotient, and even at a tie |
| `Score.RoundUnique` | main.py:261 | any integer within one half of the quotient, and even at a tie, is the rounded quotient |
| `Score.RoundAtMost` | main.py:147 | rounding a quotient that is at most `k` gives at most `k` |
| `Score.Percentage` | main.py:261 | the percentage is 0 when nothing was graded, at most 100 when `correct <= total`, 0 exactly when `total == 0` or the ratio is at most 0.5%, and 100 when every graded answer is correct |
| `Score.RoundBounds` | main.py:261 | for a positive total: at most 100 when `correct <= total`, 0 exactly when `200 * correct <= total`, and 100 when `correct == total` |
| `Score.PerfectScoreWithOneMistake` | main.py:261 | 199 correct out of 200 is reported as 100% |
| `Score.Average` | main.py:145-147 | definition of `round(avg) if avg else 0` on the exact average; characterised by `AverageAtMost100` |
| `Score.AverageAtMost100` | main.py:145-147 | the rounded average of scores of at most 100 is at most 100, and 0 with no attempts |
| `Store.AnswerRows` | main.py:277-290 | one answer row per result |
| `Store.AnswerRowsAt` | main.py:277-290 | answer row `k` copies result `k` (word index, level-1 flag, country, user answer, correct answer, correctness), has id `firstId + k`, and references the attempt |
| `Store.StatisticsOf` | main.py:133-157 | definition of `get_statistics` on an attempt table: the count, the rounded average score and the number of scores equal to 100; characterised by `StatisticsEmpty`, `StatisticsAppend` and `StatisticsBounded` |
| `Store.AttemptStore.Statistics` | main.py:133-157 | `get_statistics` on the store's current attempt table, i.e. `StatisticsOf(attempts)`; its changes are given by `RecordAttempt` and its bounds by `CheckAnswers` |
| `Store.StatisticsEmpty` | main.py:140-151 | with no attempts, the attempt count, the average and the perfect-score count are all 0 |
| `Store.StatisticsAppend` | main.py:140-151 | appending an attempt adds 1 to the attempt count and its score to the sum, and adds 1 to the perfect scores iff its score is 100 |
| `Store.ScoresBounded` | main.py:144-151 | scores of at most 100 sum to at most `100 * attempts`, and there are at most as many perfect scores as attempts |
| `Store.StatisticsBounded` | main.py:144-151 | with scores of at most 100, the average is at most 100 and the perfect scores are at most the attempts |
| `Store.AttemptStore.constructor` | main.py:98-123 | the store starts with two empty tables |
| `Store.AttemptStore.RecordAttempt` | main.py:264-292 | when every result has a correct answer: one attempt row with the next id and one answer row per result referencing it are appended, no existing row changes, the attempt count grows by 1 and the perfect scores by 1 iff the score is 100; otherwise a NOT NULL failure and both tables unchanged; a score of at most 100 keeps every stored score at most 100 |
| `Submit.CheckAnswers` | main.py:208-295 | a grading failure or a save failure leaves the store unchanged; on success the reply holds the results, the counters, a percentage of at most 100 and the fresh statistics with an average of at most 100 and no more perfect scores than attempts, every stored score stays at most 100, and exactly one attempt (with the client address) and its answer rows were appended |
| `Submit.TwoQuestionScenario` | main.py:223-261 | "Cancelled " at level 1 against canceled/cancelled and "tyre" for gb against tire/tyre score 2 of 2, 100% |
| `Submit.ScenarioSpellings` | main.py:226 | trimming and lower-casing of the scenario's answers |
| `Submit.SkippedAnswerBlocksSave` | main.py:246-290 | a non-level-1 answer without a country is graded as skipped, and its result cannot be saved |

## Left out

- HTTP routing, `render_template`, `jsonify`, the `ProxyFix` middleware and `app.run`, which are web plumbing. `ProxyFix` rewrites the connection address from the forwarded-for header; the model takes the connection address as given.
- The `get_quiz` reply's `levelDescriptions` is a constant of that web layer and is not modelled.
- The SQLite engine: the SQL text, connections, cursors, `init_database` and the row factory. The two tables are in-memory sequences, and ids are positions plus one (AUTOINCREMENT on tables that are never deleted from). Commit and rollback are modelled only as "all rows or none", not as concurrency control.
- `datetime.now().isoformat()` is an opaque `timestamp` parameter; `random.randint` is the `picks` parameter, one valid index per group.
- The static word catalog and level descriptions; the catalog is a parameter.
- `Text.Trim` and `Text.Lower` cover ASCII only (`str.strip` whitespace and `str.lower` letters); Unicode whitespace and case mapping are not modelled.
- Score.Percentage: evaluates `round(correct / total * 100)` exactly on rationals, so it does not capture floating-point error near a tie (for example `23 / 40 * 100` is `57.49999999999999` in floating point, which Python rounds to 57, while the model gives 58; `109 / 200 * 100` is `54.50000000000001`, which Python rounds to 55, while the model gives 54).
- Score.Average: the same exact rounding for `round(AVG(final_score))`; the floating-point average is not modelled.
- Grading.GradeAnswers: requires `0 <= wordIndex < len(quizData)`; Python's negative indices and the `IndexError` raised beyond the end are not modelled.
- Malformed submissions: a missing `wordIndex`, a non-string `answer` or `country`, and a non-boolean `isLevel1` are not modelled. An absent `answer` is `""` and an absent `isLevel1` is `false`, as the source defaults them. A `country` that is a number or a boolean is skipped in the source (`country in word` is false for string keys), which the model reproduces by treating it as absent; a list or object `country` raises `TypeError` (unhashable) at main.py:249, which the model does not capture. A quiz entry that is not a JSON object cannot be expressed (`Entry` is a map from keys to fields): in the source a string entry turns `country in word` into a substring test, and a list entry raises `TypeError` at `word["ca"]`.
