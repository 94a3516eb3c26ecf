# QuickPulse quiz store, submission and reporting — a Dafny model

QuickPulse is a Streamlit page with two modes. In Teacher mode a topic is sent
to a language model, the reply is parsed as JSON and stored as a quiz; the
teacher can then view, per quiz, a heatmap of which student answered which
question correctly. In Student mode a quiz link (`?quiz_id=...`) and a name
open a form with one radio group per question; on a submission within the
time limit the answers, keyed by question text, are scored and one row of
`quiz_results` is stored per distinct question text (a late submission stores
nothing).

This project lifts that logic out of the page script and models it:

- `quiz_data.dfy` (module `QuizData`): the rows of the two hosted tables,
  `quizzes` and `quiz_results`, and `Select`, the filtered select that every
  filtered query of the page performs (streamlit_app.py:71, 93, 97).
- `scoring.dfy` (module `Scoring`): the `answers` dictionary the form loop
  builds (a Python dict, modelled as its items in insertion order, so a
  repeated question text overwrites the earlier value in place), the
  per-answer correctness test, the score and the rows a submission inserts.
- `quiz_store.dfy` (module `QuizStore`): class `Store` holding both tables as
  sequences that its methods append to — `CreateQuiz` (the Teacher insert
  branch) and `Submit` (the whole Student flow: the both-fields gate, the
  resubmission guard, the unknown-quiz check, the form, the deadline and the
  scoring/insert loop `InsertRows`).
- `aggregation.dfy` (module `Aggregation`): the pivot table of one quiz's
  rows, `max` of `is_correct` per (student, question text), which is a logical
  OR; a pair without rows has no cell (`Option<bool>`).
- `session.dfy` (module `Session`): verified client sessions against the
  store: a one-question quiz "2+2=?" answered "4" and "3", a second attempt
  by the same student, and attempts 35 s and exactly 30 s into a 30 s limit.
- `wrappers.dfy`: `Option`.

The service calls are parameters: the parse outcome of the model's reply is an
`Option<seq<Question>>`, the quiz uuid is `freshId` (required not to be in
use, as a uuid4 is), the row uuids are `newRowId(k)` for the k-th inserted
row, the radio selection of question i is `choose(i)`, the seconds since the
form was drawn are `elapsed`, and whether "Submit All" was pressed is
`submitted`. A `Store` keeps quiz ids unique (`Valid`).

The page does no schema check of the parsed reply (no count of questions or
options, no check that the answer is among the options) and keys the answers
by question text, so two questions with the same text yield one row and
`len(questions)`, the displayed total, can exceed the reachable score.

## Model

| member | source | states |
|---|---|---|
| `QuizData.Select` | streamlit_app.py:93 | a filtered select returns every row satisfying the filter as many times as the table holds it and no other row, never more rows than the table |
| `QuizStore.Store.constructor` | streamlit_app.py:13 | the store starts with both tables empty and valid |
| `QuizStore.Store.CreateQuiz` | streamlit_app.py:47-65 | a parse failure changes nothing and reports no id; a successful parse appends exactly one quiz with the fresh id, the topic and the parsed questions unchanged, leaves `quiz_results` alone, and that quiz is then found by its id |
| `QuizStore.CreateThenFind` | streamlit_app.py:53-58 | a quiz stored under an id not in use is what a later lookup of that id returns (same topic, same question order) |
| `QuizStore.FindQuiz` | streamlit_app.py:97-101 | no quiz is found exactly when no quiz has the id; a found quiz is in the table and has that id |
| `QuizStore.FindQuizUnique` | streamlit_app.py:97-101 | with unique ids the lookup returns the one quiz stored under the id |
| `QuizStore.HasPrior` | streamlit_app.py:93-94 | the prior-submission query is non-empty exactly when some result row has this quiz id and this student id |
| `QuizStore.Store.Submit` | streamlit_app.py:89-140 | missing/empty quiz id or name: no change, no score; a prior row for (quiz, student): no change, the quiz table is not consulted; unknown quiz: no change; form not submitted: no change; `timer > 0 && elapsed > timer`: no change, no score; otherwise the rows of the answers dictionary are appended after the existing rows and the outcome is the score out of `len(questions)`, computed from the questions of the one quiz stored under the id; the quiz table never changes |
| `QuizStore.Store.InsertRows` | streamlit_app.py:119-137 | the scoring loop returns the score of the dictionary and appends exactly its rows, in dictionary order, to the results |
| `QuizStore.ScoredBlocksResubmission` | streamlit_app.py:93-95 | after a scored submission of a quiz with at least one question, the same student's next attempt hits the prior-submission guard |
| `QuizStore.GuardAfterSubmission` | streamlit_app.py:93-95 | after a scored submission the prior-submission guard fires for that student exactly when the quiz had a question or the student already had a row; a quiz without questions leaves the guard open |
| `QuizStore.DeadlineRule` | streamlit_app.py:116 | a limit of zero or less never expires; submitting exactly at the limit is on time; a late submission stays late as elapsed time grows |
| `Scoring.Put` | streamlit_app.py:111 | dictionary assignment: the key set gains the key; a present key keeps its position and length is unchanged, a new key is appended; other items are untouched; the key's value is the new one; keys stay distinct |
| `Scoring.AnswersFor` | streamlit_app.py:108-111 | the dictionary has distinct keys, its key set is the set of question texts, and it has one item per distinct text, at most `len(questions)` |
| `Scoring.LastQuestionWins` | streamlit_app.py:108-111 | every item holds the selection, answer and explanation of the last question carrying its text (later duplicates overwrite earlier ones) |
| `Scoring.BuildAnswers` | streamlit_app.py:102-111 | the form loop builds exactly `AnswersFor`, whose keys are distinct and are the question texts |
| `Scoring.Score` | streamlit_app.py:119-122 | the score never exceeds the number of dictionary items |
| `Scoring.FullScoreIffAllCorrect` | streamlit_app.py:119-122 | full marks over the dictionary exactly when every selection equals its correct answer |
| `Scoring.ZeroScoreIffNoneCorrect` | streamlit_app.py:119-122 | a score of zero exactly when no selection equals its correct answer |
| `Scoring.ScoreBounds` | streamlit_app.py:119-138 | `0 <= score <= number of distinct texts <= len(questions)`, the displayed total |
| `Scoring.Rows` | streamlit_app.py:128-137 | one row per dictionary item, in order: the k-th has id `newRowId(k)`, `student_id = name`, `quiz_id`, the item's text, the selection as `student_answer`, the stored answer as `correct_answer`, and `is_correct` exactly when the two are equal |
| `Scoring.RowsPerQuestion` | streamlit_app.py:108-137 | a submission inserts exactly one row per distinct question text, with distinct texts, each carrying the answer of and the selection made at the last question with that text |
| `Scoring.CountCorrect` | streamlit_app.py:135 | the number of rows marked correct is at most the number of rows |
| `Scoring.ScoreCountsCorrectRows` | streamlit_app.py:119-138 | the reported score equals the number of inserted rows whose `is_correct` is true |
| `Aggregation.Pivot` | streamlit_app.py:77 | the pivot has at most one cell per row, and is empty exactly when there are no rows |
| `Aggregation.PivotCells` | streamlit_app.py:77 | the pivot has a cell exactly for the (student, question) pairs that have rows, and the cell is true exactly when one of those rows is correct |
| `Aggregation.Cell` | streamlit_app.py:77-78 | a cell is `Some(true)` iff some matching row is correct, `Some(false)` iff matching rows exist and all are incorrect, `None` iff there is no matching row |
| `Aggregation.PivotOrderIndependent` | streamlit_app.py:77 | permuting the rows does not change the pivot table |
| `Aggregation.OrOfTwoResults` | streamlit_app.py:77 | an incorrect and a correct row for the same pair give a true cell in either order |
| `Aggregation.ResultsOf` | streamlit_app.py:71 | the rows fetched for a quiz are exactly the result rows with its id, each as many times as the table holds it |
| `Aggregation.QuizReport` | streamlit_app.py:71-77 | "no responses" exactly when the quiz has no rows; otherwise the row count is the number of that quiz's rows, between 1 and the table size, and the table holds exactly that quiz's pairs with the OR of their correctness |
| `Session.TwoStudentHeatmap` | streamlit_app.py:77 | one correct and one incorrect student on "2+2=?" give a true cell, a false cell, and no cell for a student without rows |

The gate `Given` (`if quiz_id and name`, streamlit_app.py:92), the deadline
test `Late` (`timer > 0 and elapsed > timer`, :116), the correctness test
`IsCorrect` (`selected == correct`, :121), the dictionary value `EntryOf`
(:111) and the inserted row `RowFor` (:128-137) are plain definitions with no
contract of their own: `Store.Submit` states the gate and the deadline
branches, `DeadlineRule` the deadline's properties, and `Rows`,
`RowsPerQuestion` and `LastQuestionWins` what each stored entry and row holds.

## Left out

- The OpenAI request and its prompt: the model's reply only matters through
  whether it parses, so the parse outcome is an input.
- `json.loads`: modelled as success (a question array) or failure. The page
  stores whatever JSON parses, of any shape, and does no schema check (no
  count of 3 questions, of 4 options, nor `answer` among the options); the
  model takes a parsed value to be a question array and adds no checks. A
  non-empty parsed value that is not a list, a list with an element that is
  not an object, or an element that lacks the `question`, `options` or
  `answer` key would make the Student page fail, which is not modelled; an
  empty string or an empty object is walked over without error and acts as
  an empty question array (`Some([])`), so the page shows a score of 0 / 0.
- Question text, options, answer and explanation are modelled as strings and
  correctness as string equality. The page compares whatever JSON values it
  parsed with Python `==` (`st.radio` returns the chosen option object, or
  `None` when `options` is empty), so a numeric `answer` against string
  options stores every row as incorrect, and `1 == 1.0 == True` holds; these
  cross-type comparisons are not modelled.
- The Supabase client: both tables are in-memory sequences, inserts are
  appends, selects are `Select`. Network and store errors (which the page does
  not catch) are not modelled.
- The "five most recent quizzes" listing of the results view: the order and
  the limit are done by the store; `QuizReport` models the view of one quiz.
- `uuid.uuid4()` and `datetime.utcnow()`: ids are parameters, and the
  `created_at` and `timestamp` columns are left out: nothing in the modelled
  flow reads them, and `created_at` only orders the five-most-recent listing,
  which is left out.
- `time.time()`: `elapsed` is a parameter, because Streamlit redraws the form
  (and resets `start`) on every rerun.
- The race between the prior-submission check and the inserts: two students'
  concurrent requests are outside a sequential model.
- The QR code, the Altair chart, the pandas `melt` and all `st.*` rendering.
- The `KeyError` a question without `explanation` raises: every `Question`
  carries an explanation.
- `Store.CreateQuiz` requires the fresh id not to be in use, standing for the
  uniqueness of uuid4 that the page relies on.
