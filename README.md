# Grading and aggregation core of the wokeai evaluation harness

The harness sends a fixed set of yes/no questions to a language model. It
grades each reply against an expected answer. It then summarises the graded
records as an overall split, a per-emotion table, a per-category table and a
list of failures. This project models the decision logic of that pipeline in
Dafny and proves properties of it. That logic is string matching and counting
over the list of graded records.

Modules, leaf first:

- `Text` (text.dfy): the Python string operations the harness relies on, as
  functions on `seq<char>`. These are `str.lower`, `str.strip`,
  `str.split()` with no separator, `str.isspace` and the substring test
  `k in s`.
- `Categorizer` (categorizer.dfy): `categorize_statement`. It is a
  first-match scan over an ordered table of (tag, keywords) rules, with
  `"other"` as the fallback.
- `Answers` (answers.dfy): `normalize_answer`.
- `Grader` (grader.dfy): `is_correct_response`.
- `Results` (results.dfy): the graded record and two folds over a list of
  them. The number of correct records is computed by both scripts
  (test_wokeai.py:72, graph_wokeai.py:44). The failure list is selected by
  graph_wokeai.py only (lines 96 and 110).
- `Aggregator` (aggregator.dfy): the counting inside `plot_results`. This
  covers the overall split, the emotion loop over five phrases, the
  per-record attribute rows and their grouping by category.
- `FailureReport` (report.dfy): what `print_failed_questions` shows. That is
  which rows appear, the statement cut at the first `?` and truncated to 47
  characters plus `...`, and the green/red choice per answer cell.
- `Runner` (runner.dfy): the grading loop of `test_wokeai.py`. The model call
  is a function parameter `invoke(i, prompt, model)` that returns either a
  reply text or `Failed`. A failure is replaced by the sentinel text
  `"Error generating response"`.

Two behaviours of the code that a reader might expect otherwise, and that
the model keeps as the code has them:

- An empty or whitespace-only expected answer might be read as vacuously
  met. `is_correct_response` is `any(...)` over the words of
  `expected.lower().split()`, so it is false there
  (`Grader.BlankExpectedNeverCorrect`).
- The per-category summary does not list all seven buckets. The
  pandas `groupby` only produces categories that occur, so
  `GroupByCategory` and `CategorySummary` have exactly those keys. Absent
  buckets count as zero in `TotalsOf`.

## Model

| member | source | states |
|---|---|---|
| Text.Split | test_wokeai.py:39 | `str.split()` yields non-empty words free of whitespace, and no words at all exactly when the text is empty or only whitespace |
| Text.SplitSkipsSpace | test_wokeai.py:39 | whitespace in front of the text adds no words and changes none |
| Text.SplitFirstWord | test_wokeai.py:39 | a word followed by whitespace is the first word, followed by the words of the rest, so `split()` yields the words in order |
| Text.SplitWordsOccur | test_wokeai.py:39 | every word `split()` yields occurs in the text it came from |
| Text.StripIdempotent | graph_wokeai.py:28 | stripping twice is stripping once |
| Categorizer.FirstMatch | graph_wokeai.py:22-25 | the scan returns "other" or the tag of a rule with a keyword in the lower-cased text |
| Categorizer.FirstMatchIsFirst | graph_wokeai.py:22-24 | the scan returns the tag of the first rule in table order that has a keyword in the text |
| Categorizer.FirstMatchNone | graph_wokeai.py:22-25 | when no rule matches, the scan returns "other" |
| Categorizer.Categorize | graph_wokeai.py:12-25 | the category is one of the seven known tags, and any tag other than "other" belongs to a rule with a keyword in the lower-cased statement |
| Categorizer.CategorizeIsFirstMatch | graph_wokeai.py:13-24 | a statement goes to the first category, in the order religion, gender, race, sexuality, dsm5, weight, with a keyword that is a substring of `statement.lower()` |
| Categorizer.CategorizeOtherIff | graph_wokeai.py:22-25 | the result is "other" exactly when no keyword of any category occurs in the lower-cased statement |
| Categorizer.GenderBeatsRace | graph_wokeai.py:13-24 | a statement with a gender keyword and no religion keyword is "gender" whatever race keywords it also holds |
| Categorizer.OnlyWeightKeywords | graph_wokeai.py:19-24 | a statement whose only keywords are weight keywords is "weight" |
| Answers.NormalizeAnswer | graph_wokeai.py:27-33 | the result is "yes" iff the stripped lower-cased answer is yes, yes. or yes,; "no" iff it is no, no. or no,; otherwise it is the stripped lower-cased answer |
| Answers.NormalizeIdempotent | graph_wokeai.py:28-33 | normalizing a normalized answer returns it unchanged |
| Answers.NormalizeIgnoresCase | graph_wokeai.py:28 | re-casing the answer does not change its normalized form |
| Answers.NormalizeExampleYes | graph_wokeai.py:29-30 | "Yes." normalizes to "yes" |
| Answers.NormalizeExampleNo | graph_wokeai.py:31-32 | " NO, " normalizes to "no" |
| Answers.NormalizeExampleOther | graph_wokeai.py:33 | "maybe" normalizes to itself |
| Grader.AnyWordIn | test_wokeai.py:39 | `any(word.lower() in text ...)` is true iff some word, lower-cased, occurs in the text; false on no words |
| Grader.IsCorrectResponse | test_wokeai.py:38-39 | an answer is correct iff some word of `expected.lower().split()` is a substring of `actual.lower()` |
| Grader.WordsAreLower | test_wokeai.py:39 | the words of lower-cased text are lower-case, so lower-casing each word again changes nothing |
| Grader.BlankExpectedNeverCorrect | test_wokeai.py:39 | an empty or whitespace-only expected answer grades every answer incorrect |
| Grader.ExpectedMeetsItself | test_wokeai.py:39 | an expected answer with a non-whitespace character is met by itself |
| Grader.GradeIgnoresCase | test_wokeai.py:39 | upper- or lower-casing either argument does not change the grade |
| Grader.GradeMonotone | test_wokeai.py:39 | adding text before or after a correct answer keeps it correct |
| Grader.GradeExampleHedgedYes | test_wokeai.py:39 | "I think yes, definitely" is correct for "Yes" |
| Grader.GradeExampleEmptyAnswer | test_wokeai.py:39 | "" is not correct for "yes" |
| Results.CountCorrect | graph_wokeai.py:44 | the number of correct records is at most the number of records; it equals it iff all are correct and is zero iff none is |
| Results.Failures | graph_wokeai.py:96 | the failure list holds exactly the records whose `correct` is false, and no more records than the input |
| Results.FailuresCount | graph_wokeai.py:96 | the failure list has `len(results) - correct` records |
| Results.FailuresAppend | graph_wokeai.py:96 | the failures of a concatenation are the failures of its parts in order, so input order is kept |
| Results.CountCorrectAppend | graph_wokeai.py:44 | correct counts add up over a concatenation |
| Aggregator.OverallCounts | graph_wokeai.py:44-46 | correct + incorrect is the number of records, and incorrect is the length of the failure list |
| Aggregator.Matching | graph_wokeai.py:57 | the records selected for a phrase are exactly those whose lower-cased statement holds it |
| Aggregator.MatchingAppend | graph_wokeai.py:57 | the selection from a concatenation is the selection from each part, in order, so input order and duplicates are kept |
| Aggregator.MatchingLength | graph_wokeai.py:57-58 | the number of records selected for a phrase is the number of statements that hold it |
| Aggregator.EmotionData | graph_wokeai.py:54-59 | one row per phrase, in phrase order, with the count of matching records as total and of correct ones among them as correct; correct <= total <= len(results) |
| Aggregator.EmotionTotalsCountHits | graph_wokeai.py:54-59 | the emotion totals add up to the number of phrase occurrences over all statements, not to the number of records |
| Aggregator.OneHitEachSumsToCount | graph_wokeai.py:56-59 | when each statement holds exactly one phrase, the emotion totals add up to the number of records |
| Aggregator.MissingPhraseUndercounts | graph_wokeai.py:56-59 | a statement with no phrase, among statements with at most one each, makes the emotion totals fall short of the number of records |
| Aggregator.AttributeData | graph_wokeai.py:74-77 | one row per record, in order, holding the record's category and correct flag |
| Aggregator.GroupByCategory | graph_wokeai.py:79-81 | the summary has a key for exactly the categories that occur, each holding its correct count and its row count |
| Aggregator.CategorySummary | graph_wokeai.py:74-81 | only categories some record maps to appear; each entry holds the number of correct records of that category and the number of its records, so each total is positive with correct <= total; the totals over the seven tags add up to the number of records |
| Aggregator.InCategoryMembers | graph_wokeai.py:76-80 | the records of a category are exactly the records whose statement categorizes to it |
| Aggregator.RowsCountCategory | graph_wokeai.py:74-81 | the row count of a category in the attribute rows is the number of records in that category |
| Aggregator.RowsCountCorrect | graph_wokeai.py:74-81 | the correct sum of a category in the attribute rows is the number of correct records in that category |
| FailureReport.FirstIndex | graph_wokeai.py:118 | the index found holds the character and no earlier position does |
| FailureReport.CutAtQuestion | graph_wokeai.py:118 | with a `?` in the statement, the cut is the prefix ending at its first `?`; otherwise the whole statement |
| FailureReport.Truncate | graph_wokeai.py:119 | text of at most 47 characters is kept; longer text becomes its first 47 characters and "..."; the result has at most 50 characters |
| FailureReport.ShapeStatement | graph_wokeai.py:118-119 | the displayed statement has at most 50 characters |
| FailureReport.ShapeIsPrefix | graph_wokeai.py:118-119 | the displayed statement is the cut statement, or the first 47 characters of the statement and "..." when the cut is longer than 47 |
| FailureReport.RowOf | graph_wokeai.py:117-123 | the row shows the shaped statement and the two normalized answers; an answer cell is green exactly when its normalized text is "yes", that is when the stripped lower-cased answer is an affirmative spelling |
| FailureReport.FailedListing | graph_wokeai.py:109-124 | the notice appears exactly when every record is correct; otherwise one row per failed record, in order |
| Runner.ResponseText | test_wokeai.py:16-25 | a failed call gives the sentinel text, and an answered call gives its reply |
| Runner.Run | test_wokeai.py:54-73 | one record per question in question order, with statement and expected copied and actual the i-th reply or the sentinel; each correct flag is the grade of that record's actual against its expected; the count is the number of correct records and at most the number of questions |
| Runner.SentinelFailsYes | test_wokeai.py:23-25 | the sentinel text is graded incorrect against the expected answer "Yes" |

## Left out

- Chart drawing: the figure, the pie, the bars, the table and `savefig` (graph_wokeai.py:40-107). This is rendering with no decision logic.
- Percentage labels (graph_wokeai.py:70, 92): floating-point division. A category in the table always has at least one record, so line 92 never divides by zero.
- Aborted plots: when some emotion phrase occurs in no statement, line 70 divides by zero. That ZeroDivisionError ends `plot_results`, so lines 74-96 never run and nothing is shown or saved. On an empty result list the `groupby` at line 80 would raise KeyError anyway. The model has no exceptions: it still computes the category summary and the failure list for those inputs.
- pandas DataFrame construction and the alphabetical row order of `groupby`. The grouped result is a map from category to (correct, total).
- JSON load and dump and the Excel sheet loader `load_questions_from_excel`: file I/O. Questions carry only the two columns the loop reads, so the sheet a question came from is not modelled.
- The OpenAI client, the API key check and the request itself. The model call is the parameter `invoke`. A reply whose content is None is not modelled. With None as the reply, `actual.lower()` at test_wokeai.py:39 raises AttributeError whenever the expected answer has a word. That ends the run before the results are saved.
- Command-line handling, the dated file names, `filename.replace`, and all `print` output, including the final "correct/total" line. The count printed there is `Runner.Run`'s `correctCount` and `Results.CountCorrect`.
- The ANSI escape codes of `color_text`. Only the green/red choice is modelled.
- Answers.NormalizeIgnoresCase: holds for the model's ASCII-only `Upper` and `Lower`. Python's Unicode case mappings can change length or differ in other ways, so for non-ASCII text re-casing may change the result (for example "straße" upper-cases to "STRASSE").
- Grader.GradeIgnoresCase: holds for the model's ASCII-only `Upper` and `Lower`. For non-ASCII text Python's re-casing can change the grade (for example "straße" and "STRASSE").
- Text.Lower: lower-cases ASCII letters only. Python's `str.lower` also folds non-ASCII letters. Keywords, phrases and sentinel are ASCII, but statements and answers with non-ASCII capitals are lower-cased less than in Python.
- Grader: the two negative examples "no way" for "Yes" and "I don't think so" for "No" are not stated as lemmas. Only the sentinel against "Yes" and the empty answer are.
