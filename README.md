# AutomationFit evaluation core in Dafny

AutomationFit is a questionnaire that rates a business process for two automation
strategies, RPA and IPA. This project models its evaluation core and proves properties
about it:

- **Answer rows.** The rows built from a submitted form (`evaluate` and
  `update_assessment` in `main.py`).
- **Applicability filter.** `apply_filter_logic`: when gate question "1.5" is answered
  `NEIN`, every question that depends on it becomes inapplicable and loses its values.
- **Scorer.** `ScoringService` in `services/scoring_service.py`. For each dimension and
  strategy it stores a mean score, or an exclusion. It then stores two strategy totals
  and one of five recommendations.
- **Progress status.** `get_dimension_status`: whether a dimension is not started,
  partial or complete.
- **Score cells.** `fmt` and `best_of` in `view_assessment`, the cells shown next to
  each answer.
- **Comparison list.** `comparison`: a combined score per assessment, and the list
  ranked by it.

## Layout

| file | module | what it holds |
|---|---|---|
| `schema.dfy` | `Schema` | Tables. The read-only master data is one `Catalog` value. The tables the evaluation writes are fields of the class `Database`. Also first-row lookups. |
| `scoring_service.dfy` | `ScoringService` | Dimension results, totals, recommendation, the whole recomputation. |
| `filter_logic.dfy` | `FilterLogic` | The gate filter of question "1.5". |
| `dimension_status.dfy` | `DimensionStatus` | `get_dimension_status`. |
| `score_view.dfy` | `ScoreView` | `fmt`, `best_of` and the cells they produce. |
| `comparison.dfy` | `Comparison` | The combined score and the stable descending sort. |
| `answer_form.dfy` | `AnswerForm` | The rows built per question type. |
| `pipeline.dfy` | `Pipeline` | Lemmas across modules: how the filter and the scorer interact. |

Conventions:

- A table is a sequence in insertion order. A query's `.first()` is the matching row
  with the lowest index.
- Python truthiness of an id (`if answer.scale_option_id`) is `Schema.Truthy`: present
  and not 0. An `is not None` test is `.Some?`.
- Scores are `real`, so the 0.25 threshold is exact.
- Python's `int()` and `float()` are the two abstract functions of
  `AnswerForm.Parsers`. `None` stands for the `ValueError` they raise.

The methods follow the source's loops and state changes. Each one is proved against a
specification function:

- `ScoreRows`, the loop of `CalculateDimensionResult`, against `DimensionOutcome`.
- `ApplyFilterLogic` against `AfterFilter`.
- `GetDimensionStatus` against `StatusOf`.
- `BuildAnswers` against `AnswerRows`.
- `Compare` against `JoinedRows` plus a stable permutation.

The lemmas are proved about those functions.

The cross-module result is `Pipeline.NeinScoresWithoutDependents`. The scorer never
reads `is_applicable`. Even so, after a `NEIN` on the gate, every dimension scores
exactly as if the dependent questions had no rows at all. This holds because the filter
clears `scale_option_id`, and only multiple-choice questions, which the scorer skips,
have more than one row. `Pipeline.BuiltAnswersRepeatOnlyMultipleChoice` proves that the
rows built from a form meet this premise.

Facts about the code that shape the model:

- **Scorer.** It does not check `is_applicable`. It also does not consult
  `calc_method`: every dimension of the version gets a mean-or-exclusion row for both
  strategies.
- **Multiple rows per question.** Answers are a sequence that may hold several rows per
  question, as `main.py:568-576` creates them. The unique constraint on (assessment,
  question) at `models/database.py:146` is not enforced.

## Model

| member | source | states |
|---|---|---|
| `Schema.FirstAnswerIndex` | main.py:64-67 | The first row of (assessment, question): it is a row of that key, no earlier row has the key, and none is found iff the table has no row with the key. |
| `Schema.QuestionById` | services/scoring_service.py:66 | `Question.query.get`: a found question is in the table with that id; none is found iff no question has the id. |
| `Schema.FirstCodeIndex` | main.py:59 | The index `.first()` finds for a code: that question has the code, no earlier question has it, and none is found iff no question has it. |
| `Schema.FirstQuestionWithCode` | main.py:59 | Lookup of question "1.5" by code: a found question is in the table and has the code; none is found iff no question has it. |
| `Schema.FirstQuestionWithCodeIsFirst` | main.py:59 | Codes repeat across catalog versions, and `.first()` finds the lowest-index question with the code: every question before it has another code. |
| `Schema.QuestionByIdUnique` | models/database.py:61-63 | With the `id` primary key, looking up a question's own id finds exactly that question. |
| `ScoringService.CalculateDimensionResult` | services/scoring_service.py:49-102 | Appends exactly one row: `DimensionOutcome` over the dimension's answer rows, in table order. Answers, totals and the other tables are unchanged. |
| `ScoringService.ScoreRows` | services/scoring_service.py:62-91 | The loop over the answer rows, with its early `break` on an exclusion, yields exactly `DimensionOutcome` of those rows: excluded by the first excluding row's question with a null mean, else the mean of the collected scores. |
| `ScoringService.ExclusionShortCircuits` | services/scoring_service.py:65-82 | The first excluding answer decides: the result is excluded by that answer's question, with a null mean, whatever scores were collected before or after. |
| `ScoringService.NoExclusionGivesMean` | services/scoring_service.py:88-91 | With no excluding answer, the dimension is not excluded, has no excluding question, and its mean is the mean of the collected scores. |
| `ScoringService.MeanBetweenMinAndMax` | services/scoring_service.py:88-91 | The mean is null exactly when nothing was collected (never 0). Otherwise it lies between the smallest and the largest collected score. |
| `ScoringService.ContributionNeedsScoredOption` | services/scoring_service.py:69-86 | An answer adds a score or excludes only if its question is single_choice, a truthy option is selected, and an option-score row exists. An exclusion comes from an `is_exclusion` row. An added score comes from an applicable, non-excluding row with that non-null score. |
| `ScoringService.CollectedComeFromScoredRows` | services/scoring_service.py:84-86 | Every collected score is the `Add` contribution of some answer of the dimension, and every answer that adds a score has it collected. |
| `ScoringService.SkippedRowsScoreNothing` | services/scoring_service.py:69-91 | When every answer contributes nothing (not single-choice, no option, no option-score row, or a not-applicable or null-score row), the result has a null mean and is not excluded. |
| `ScoringService.DimRowsSelect` | services/scoring_service.py:53-59 | An answer reaches the dimension's loop iff it belongs to this assessment and its question belongs to the dimension. |
| `ScoringService.SeededNeinOnQuestion21` | seed_data.py:181-198 | The seeded question 2.1 answered "Nein" excludes RPA (by 2.1), scores IPA 4.0, and yields the recommendation IPA. |
| `ScoringService.CalculateTotalResult` | services/scoring_service.py:105-147 | Appends and returns `TotalOf` the stored dimension results; nothing else changes. |
| `ScoringService.TotalNullIffNothingUsable` | services/scoring_service.py:121-129 | A strategy total is null iff every one of its dimension results is excluded or has a null mean. |
| `ScoringService.UsableMeansFromIncludedDimensions` | services/scoring_service.py:121-122 | Every value averaged into a total is the mean of a dimension result that is not excluded, and every non-excluded result with a mean is averaged in. |
| `ScoringService.ExcludedStrategyKeepsTotal` | services/scoring_service.py:120-129 | A strategy can be excluded at total level and still have a numeric total, here 4.0. |
| `ScoringService.RecommendationTable` | services/scoring_service.py:150-179 | Each of the five labels holds iff its case holds. Exclusion flags decide first. A difference above 0.25 gives IPA, below −0.25 gives RPA, and within ±0.25 inclusive gives Neutral. A missing total gives Unvollständig. |
| `ScoringService.RecommendationSymmetric` | services/scoring_service.py:150-179 | Swapping the RPA and IPA inputs swaps the labels RPA and IPA and keeps the other three. |
| `ScoringService.RecommendationBoundaries` | services/scoring_service.py:153-176 | Differences of exactly ±0.25 are Neutral. Also: 3.0/3.5 gives IPA, 3.5/3.0 gives RPA, 3.0/3.1 gives Neutral, RPA excluded gives IPA, both excluded gives Keine Automatisierung, a missing total gives Unvollständig. |
| `ScoringService.CalculateAssessmentResults` | services/scoring_service.py:15-46 | A missing assessment fails and changes nothing. Otherwise the assessment's old dimension and total results are deleted and other assessments' results are kept. One result per (dimension, strategy) of its version is written, then the total. The returned total is `TotalOf` the new results. |
| `ScoringService.CalculateDimensionResults` | services/scoring_service.py:35-39 | The nested loops append, per dimension in order, the RPA row and then the IPA row. |
| `ScoringService.ExpectedResultsShape` | services/scoring_service.py:35-39 | Exactly two rows per dimension: row 2k is dimension k for RPA and row 2k+1 is dimension k for IPA. |
| `ScoringService.ExpectedResultsIgnoreCalcMethod` | services/scoring_service.py:31-39 | The written results depend only on the dimensions' ids. `calc_method`, code and sort order are never consulted. |
| `ScoringService.TotalIgnoresOtherAssessments` | services/scoring_service.py:109-117 | Results of other assessments left in the table do not change an assessment's total. |
| `FilterLogic.ApplyFilterLogic` | main.py:49-117 | The answer table becomes `AfterFilter` of the old one. It fails exactly when the selected gate option does not exist (`option.code` on `None`). When it returns early (no question "1.5", no gate row, or no truthy option on the first gate row) it passes and changes nothing. The result tables are unchanged. |
| `FilterLogic.NoGateAnswerNoChange` | main.py:58-70 | Without question "1.5", without a row for it, or with a first gate row whose option is not truthy, the table is unchanged; these are exactly the cases in which the filter neither fails nor takes a branch. |
| `FilterLogic.NeinClearsEveryDependent` | main.py:80-104 | With `NEIN`, every dependent has a first row that is inapplicable with null option and number. This is the updated existing row, or a created one. |
| `FilterLogic.OtherOptionReappliesDependents` | main.py:106-117 | With any other option, the first row of every dependent that has one becomes applicable; its values are unchanged. |
| `FilterLogic.FilterKeepsOtherRows` | main.py:76-117 | Rows of other assessments, of questions outside the dependents, and non-first rows are unchanged. New rows are appended only with `NEIN`: one cleared row per dependent that had no row. Any other option creates nothing and keeps every value. |
| `FilterLogic.DependentIdsDistinct` | main.py:76-78 | The dependents are exactly the questions whose `depends_on_question_id` is the gate, each once. |
| `FilterLogic.FilterIdempotent` | main.py:49-117 | Running the filter twice is the same as running it once, for every table: a run that returns early or fails changes nothing. If the gate depends on itself, `NEIN` clears the gate row, so the second run returns early. |
| `FilterLogic.GateRowStaysFirst` | main.py:84-97 | A dependent that has a row keeps its first row at the same index, cleared with `NEIN` and made applicable otherwise. |
| `FilterLogic.NeinClearsAllRowsOfDependents` | main.py:53-55 | The filter as its docstring states it: after `NEIN` every dependent has a row, every one of its rows is cleared, and other rows are kept. |
| `DimensionStatus.QuestionsOfDimension` | main.py:133 | The questions counted are exactly those of the dimension. |
| `DimensionStatus.FirstApplicableIndex` | main.py:146-150 | The first applicable row of (assessment, question), or none iff there is no applicable row. |
| `DimensionStatus.GetDimensionStatus` | main.py:123-168 | The counting loop returns `StatusOf` the answer table. |
| `DimensionStatus.AnsweredCountBounds` | main.py:143-161 | answered ≤ total. It equals total iff every question is answered, and is 0 iff none is. |
| `DimensionStatus.StatusMeaning` | main.py:136-168 | not_started iff there are no questions, no truthy assessment id, or nothing answered. complete iff all questions are answered. partial iff some but not all are. |
| `DimensionStatus.InapplicableQuestionBlocksComplete` | main.py:145-161 | A question of the dimension with no applicable row keeps the dimension from being complete. |
| `ScoreView.ApplicableScores` | main.py:822 | The list `best_of` takes the maximum of: exactly the scores of applicable rows with a non-null score. |
| `ScoreView.BestOfCases` | main.py:817-825 | `best_of` is None iff it gets no rows, and AUSSCHLUSS iff any row is an exclusion. It is N/A iff no row excludes and none is applicable with a score. Otherwise it is a score that some applicable row has and that no applicable score exceeds. |
| `ScoreView.BestOfIgnoresOrder` | main.py:805-825 | `best_of` depends only on which option-score rows the query returns, not on their order or repetition. |
| `ScoreView.FmtAgainstBestOf` | main.py:784-791 | `fmt` of one row equals `best_of` of that row, except for an applicable row with a null score: `fmt` shows an empty cell and `best_of` shows N/A. |
| `ScoreView.SingleChoiceCellAgreesWithScoring` | main.py:772-794 | A single-choice cell shows AUSSCHLUSS iff the scorer excludes on the answer. It shows score x iff the scorer adds x. It is empty or N/A iff the answer contributes nothing. |
| `ScoreView.SelectedOptionIds` | main.py:797 | The selected option ids are exactly the truthy options of the question's rows. |
| `ScoreView.SelectedScores` | main.py:805-815 | The queried rows are exactly the option-score rows of the question and strategy whose option is selected. |
| `ScoreView.MultipleChoiceCellIgnoresRowOrder` | main.py:797-828 | A multiple-choice cell does not depend on the order of the answer rows. |
| `Comparison.CombinedScoreMeaning` | main.py:665-672 | The combined score is the largest truthy total, and 0 iff neither total is truthy; a total of 0.0 counts as absent; it is symmetric in the two totals. |
| `Comparison.JoinedRowsOfTotals` | main.py:655-685 | Each joined line comes from a total result whose assessment and process exist, with that total's scores and combined score. Conversely every such total gives its line, and when every total can be joined there is exactly one line per total. |
| `Comparison.InsertIntoPrefix` | main.py:687 | One insertion step extends the sorted prefix by one and keeps a stable permutation. |
| `Comparison.SortByCombinedScore` | main.py:687 | The in-place sort leaves the array in descending combined score. Rows with equal scores keep their order. |
| `Comparison.Compare` | main.py:652-689 | The list is sorted descending, and is a stable permutation of the joined rows. |
| `AnswerForm.QuestionsOfVersion` | main.py:532-534 | The questions processed are exactly those of the assessment's version. |
| `AnswerForm.BuildAnswers` | main.py:545-618 | The construction loop returns `AnswerRows`, which fails at the first option value `int()` rejects. |
| `AnswerForm.RowsForMeaning` | main.py:545-618 | Single-choice: exactly one row, whose option is `int()` of the sent value, or null when none was sent. Multiple-choice: one row per value, in order, or one empty row. Number: exactly one row, null when blank or unparsable. Other types: none. All rows are applicable. Only a rejected option value fails. |
| `AnswerForm.ChoiceRowsMeaning` | main.py:568-576 | One row per selected value, in order, with the parsed option. Fails iff some value is rejected. |
| `AnswerForm.AnswerRowsFailure` | main.py:545-620 | The form fails iff some question fails, and then with the first failing question's error. |
| `AnswerForm.AnswerRowsOwners` | main.py:545-618 | Every built row belongs to the assessment, is applicable, and belongs to one of the processed questions. |
| `AnswerForm.AnswerRowsPerQuestion` | main.py:545-618 | With distinct question ids, the rows stored for each question are exactly the rows built for it. |
| `AnswerForm.OtherAnswersMeaning` | main.py:408 | Deleting an assessment's answers removes all of its rows and keeps every other row. |
| `AnswerForm.SaveAnswers` | main.py:407-476 | On failure the transaction rolls back and the answers are unchanged. Otherwise the old rows of the assessment are replaced by the built rows. Result tables are unchanged. |
| `Pipeline.ScorerIgnoresApplicability` | services/scoring_service.py:56-86 | Two tables that differ only in `is_applicable` give every dimension the same collected scores and exclusion. |
| `Pipeline.SkippedQuestionsDoNotCount` | services/scoring_service.py:65-86 | Dropping questions whose rows contribute nothing leaves the collected scores and the exclusion unchanged. |
| `Pipeline.NeinRowsOfDependentsSkip` | main.py:84-104 | After `NEIN`, no row of a dependent question contributes a score or an exclusion. |
| `Pipeline.NeinScoresWithoutDependents` | main.py:80-104 | After `NEIN`, every dimension result equals the one computed from the original table without the dependents' rows, even though the scorer ignores `is_applicable`. |
| `Pipeline.OtherOptionKeepsScores` | main.py:106-117 | With any option other than `NEIN`, the filter leaves every dimension result unchanged. |
| `Pipeline.NeinKeepsDimensionIncomplete` | main.py:145-161 | After `NEIN`, a dimension containing a dependent that is not multiple-choice is never complete. A multiple-choice dependent does not have this guarantee; see Findings. |
| `Pipeline.NeinLeavesLaterChoicesApplicable` | main.py:84-97 | As written, after `NEIN` a multiple-choice dependent whose later row is applicable with an option still counts as answered; a dimension made of it is complete. |
| `Pipeline.CorrectedNeinKeepsDimensionIncomplete` | main.py:53-55 | With the filter clearing every row of a dependent, `NEIN` keeps every dimension containing a dependent, of any type, from being complete. |
| `Pipeline.RepeatedRowsAreMultipleChoice` | main.py:565-586 | Two built rows of the same question come from a multiple-choice question. |
| `Pipeline.BuiltAnswersRepeatOnlyMultipleChoice` | main.py:545-620 | In the stored table, only a multiple-choice question has more than one row of the assessment. |
| `Pipeline.SubmissionWithNein` | main.py:620-632 | For a stored form whose gate answer is `NEIN`, filtering and then scoring gives every dimension the result it would have without the dependents' rows. |

## Left out

- Flask routes, templates, redirects and reading `request.form`. The form arrives as
  already-read field values (`AnswerForm.Form`).
- The SQLAlchemy session, `commit`, `flush` and autoflush, and `print` logging.
  Queries are lookups over in-memory sequences and maps. Rows are ordered by insertion,
  so `.first()` and `.all()` without `ORDER BY` return the lowest-index rows.
- Catalog dimension order: `Catalog.dimensions` is assumed to be already in
  `sort_order` order. `ORDER BY` is not modelled.
- Creating the `Process` and `Assessment` in `evaluate` (main.py:510-529). Updating the
  process fields in `update_assessment` (main.py:402-405).
- Deleting old results in `update_assessment` (main.py:483-485). The scorer's own
  delete step covers it.
- The parts of `view_assessment` that only format text: answer labels, units, the
  "Nicht anwendbar" row, the breakdown dictionary.
- Floating point. Scores, totals and the threshold are exact `real` numbers. Python's
  `float()` is abstract and may return any value or fail.
- String parsing by Python's `int()` and `float()`: both are abstract parameters.
- `FilterLogic.ApplyFilterLogic`: requires distinct question ids, which the primary key
  of `question` guarantees.
- The unique constraint on (assessment, question) at models/database.py:146 is not
  enforced, because the multiple-choice rows of main.py:568-576 would break it.
- `Comparison.ComparisonRow`: the `created_at` column selected at main.py:678 is not
  kept. It is only displayed and takes no part in the score or the order.
- The legacy table declarations in models/result.py, models/use_case.py and
  models/criteria.py: they hold no logic.

## Findings

| source | as written | input that shows it | evidently intended | confidence | as-written member | corrected member |
|---|---|---|---|---|---|---|
| main.py:84-97 | With `NEIN`, only the first answer row of each dependent (`.first()`) is made inapplicable and cleared. | Gate "1.5" answered `NEIN`; a multiple-choice dependent, alone in its dimension, answered with two options, so two rows. After the filter the second row is still applicable with its option, the question counts as answered and the dimension reports complete. | Every row of a dependent becomes inapplicable, as the docstring at main.py:53-55 says. | not executed | `Pipeline.NeinLeavesLaterChoicesApplicable` | `Pipeline.CorrectedNeinKeepsDimensionIncomplete` |

`FilterLogic.AfterFilterAllRows` is the corrected filter. `ApplyFilterLogic` and the
lemmas about `AfterFilter` keep the code as written. The scores are not affected:
the scorer skips multiple-choice questions.
