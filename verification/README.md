# Exam assembly and scoring, modelled in Dafny

This project models the two service classes at the core of an online-exam backend:

- **`SubmitService`** scores a submitted exam. It resolves the username to a user id. It folds the exam's
  correct-answer rows into an answer key, one entry per question. It grades every answer whose question
  has a key entry as 1 or 0, and queues one `user_answers` insert for each such answer. It then computes
  `raw / total * 100`, rounded half-up to two decimals, and writes one `results` row.
- **`ExamService`** answers exam requests. `getExamResponseById` folds the ordered rows of
  `exams LEFT JOIN questions LEFT JOIN options` into one exam. Each question appears once and holds its
  options. `getAllExams` maps list rows to exams with no questions.

All of it is written as pure functions over in-memory rows. Database reads are parameters: the rows a
query returns, or `SqlFailure` for a `SQLException` that `ExamService` catches. Writes come back as an
ordered trace of `Write` events. Scores are integer hundredths, so `10000` is 100.00.

| file | module | models |
|---|---|---|
| `common.dfy` | `Common` | `Option` (a nullable value), `Result`, `Fetch` (rows or `SQLException`) |
| `text.dfy` | `Text` | `String.equalsIgnoreCase` on ASCII letters |
| `question_types.dfy` | `QuestionTypes` | the `QuestionType` enum: `name()` and `valueOf` |
| `answer_key.dfy` | `AnswerKey` | `getCorrectAnswers` |
| `grading.dfy` | `Grading` | `calculateScoreForQuestion`, `scoreClassicQuestion`, `scoreMultipleChoiceQuestion` |
| `scoring.dfy` | `Scoring` | `saveUserAnswersAndScore` and the final-score arithmetic |
| `submission.dfy` | `Submission` | `getUserIdFromUsername`, `processExamSubmission`, `saveResult` as a trace event |
| `exam_assembly.dfy` | `ExamAssembly` | `getExamResponseById`, `getAllExams` |

Behaviour of the code worth knowing, all of it modelled as written:

- **Exam id.** The service never compares `submission.examId` with the target exam id. The handler
  passes the body's own exam id (`SubmitHandler.java:43`), and no validation error exists
  (`Submission.SubmitIgnoresEmbeddedIds`).
- **Answers with no key entry.** `continue` skips such an answer, so it gets neither a grade nor a
  `user_answers` insert. It still counts toward the total that divides the raw score.
- **Unknown question type.** An unrecognised type name is caught as `IllegalArgumentException`, and
  `getExamResponseById` returns `null`, the same value as "not found".
- **NULL question type.** `valueOf(null)` throws `NullPointerException`. The method does not catch it,
  so it escapes. This is the `NullTypeThrown` outcome.

## Model

| member | source | states |
|---|---|---|
| `Text.EqualsIgnoreCase` | src/main/java/com/mobildev/exam/service/SubmitService.java:235 | `equalsIgnoreCase` holds exactly when the strings have the same length and each pair of characters at the same position matches by the per-character `regionMatches` test |
| `Text.EqualsIgnoreCaseIsLowerEquality` | src/main/java/com/mobildev/exam/service/SubmitService.java:235 | the per-character `equalsIgnoreCase` test holds exactly when the lower-cased strings are equal |
| `Text.EqualsIgnoreCaseIsEquivalence` | src/main/java/com/mobildev/exam/service/SubmitService.java:235 | comparing while ignoring case is reflexive, symmetric and transitive |
| `QuestionTypes.ValueOf` | src/main/java/com/mobildev/exam/service/ExamService.java:104 | `valueOf` succeeds only on a constant's exact name and returns that constant; `null` and any other string fail, each with its own fault |
| `QuestionTypes.ValueOfName` | src/main/java/com/mobildev/exam/service/ExamService.java:104 | parsing a constant's `name()` gives the constant back |
| `AnswerKey.BuildKey` | src/main/java/com/mobildev/exam/service/SubmitService.java:139-162 | the key has an entry for exactly the question ids that occur in the rows |
| `AnswerKey.KeyTypeIsFromLastRow` | src/main/java/com/mobildev/exam/service/SubmitService.java:145-148 | an entry's type string is the one on the last row read for that question |
| `AnswerKey.KeyTextIsFromLastClassicRow` | src/main/java/com/mobildev/exam/service/SubmitService.java:151-152 | the key text is the `correct_answer` of the last CLASSIC row for the question, and absent when there is none |
| `AnswerKey.KeyOptionIsFromLastFlaggedRow` | src/main/java/com/mobildev/exam/service/SubmitService.java:153-156 | the correct option is the option id (NULL read as 0) of the last MULTIPLE_CHOICE row with `is_correct` true, and absent when no row is flagged |
| `Grading.ScoreClassic` | src/main/java/com/mobildev/exam/service/SubmitService.java:232-239 | grade 1 exactly when both texts are present and equal up to case, otherwise 0 |
| `Grading.ScoreMultipleChoice` | src/main/java/com/mobildev/exam/service/SubmitService.java:244-251 | grade 1 exactly when a selected option and a key option are both present and equal, otherwise 0 |
| `Grading.CalculateScore` | src/main/java/com/mobildev/exam/service/SubmitService.java:219-227 | the grade is 0 or 1; it is 1 exactly when the answer is correct for the entry's type; any type other than CLASSIC or MULTIPLE_CHOICE grades 0 |
| `Grading.CaseVariantIsCorrect` | src/main/java/com/mobildev/exam/service/SubmitService.java:232-239 | a CLASSIC answer that differs from the key text only in letter case grades 1 |
| `Grading.ClassicIgnoresSelectedOption` | src/main/java/com/mobildev/exam/service/SubmitService.java:221-222 | for a CLASSIC entry the selected option does not affect the grade |
| `Grading.MultipleChoiceIgnoresText` | src/main/java/com/mobildev/exam/service/SubmitService.java:223-224 | for a MULTIPLE_CHOICE entry the answer text does not affect the grade |
| `Scoring.GradeOf` | src/main/java/com/mobildev/exam/service/SubmitService.java:184-191 | an answer adds 1 exactly when its question has a key entry and the answer is correct for it |
| `Scoring.RawScore` | src/main/java/com/mobildev/exam/service/SubmitService.java:177-191 | the raw score is at most the number of submitted answers |
| `Scoring.AnswerRecords` | src/main/java/com/mobildev/exam/service/SubmitService.java:194-204 | the queued batch has at most one record per submitted answer; every record carries the given user id and exam id and a question that has a key entry |
| `Scoring.KeptIndices` | src/main/java/com/mobildev/exam/service/SubmitService.java:184-188 | the kept answers are exactly those whose question has a key entry, in increasing position |
| `Scoring.RecordsFollowKeptAnswers` | src/main/java/com/mobildev/exam/service/SubmitService.java:180-204 | one queued record per kept answer, in input order, each holding (user, exam, question, selected option or NULL, text) |
| `Scoring.UnkeyedAnswerIsSkipped` | src/main/java/com/mobildev/exam/service/SubmitService.java:184-188 | an answer with no key entry changes neither the raw score nor the queued records, wherever it stands |
| `Scoring.RawScoreIsOrderIndependent` | src/main/java/com/mobildev/exam/service/SubmitService.java:177-191 | permuting the answers leaves the raw score unchanged |
| `Scoring.SaveUserAnswersAndScore` | src/main/java/com/mobildev/exam/service/SubmitService.java:177-209 | the single loop returns the raw score and the queued batch described by `RawScore` and `AnswerRecords` |
| `Scoring.FinalScore` | src/main/java/com/mobildev/exam/service/SubmitService.java:94-101 | 0 when nothing was submitted; otherwise the integer nearest to 10000 * raw / total, a tie rounding up; never above 100.00 when raw is at most total |
| `Scoring.FinalScoreIsMonotonic` | src/main/java/com/mobildev/exam/service/SubmitService.java:94 | more correct answers out of the same total never lower the score |
| `Scoring.FinalScoreExtremes` | src/main/java/com/mobildev/exam/service/SubmitService.java:94 | all correct gives 100.00 and none correct gives 0.00 |
| `Submission.LookupUser` | src/main/java/com/mobildev/exam/service/SubmitService.java:115-126 | no id exactly when no user row has the name; otherwise the id of the first matching row |
| `Submission.Submit` | src/main/java/com/mobildev/exam/service/SubmitService.java:72-105 | an unknown user fails with no writes at all; otherwise the message is the fixed success text and the score is in [0, 100.00]: 0 for no answers, and otherwise correct over submitted answers rounded half up to hundredths; the answer inserts come first, then one result insert whose score equals the returned score |
| `Submission.SubmitRecordsKeptAnswers` | src/main/java/com/mobildev/exam/service/SubmitService.java:180-206 | the answer inserts in the trace are the kept answers in submission order, with the resolved user id and the target exam id |
| `Submission.SubmitScoreIsOrderIndependent` | src/main/java/com/mobildev/exam/service/SubmitService.java:83-94 | resubmitting the same answers in another order gives the same score |
| `Submission.SubmitIgnoresEmbeddedIds` | src/main/java/com/mobildev/exam/service/SubmitService.java:72-90 | the user id and exam id inside the submission body have no effect on the outcome |
| `Submission.ExampleAllCorrect` | src/main/java/com/mobildev/exam/service/SubmitService.java:72-105 | with key "Paris" and option 10, the answers "paris" and 10 score 100.00 and both are recorded before the result |
| `Submission.ExampleHalfCorrect` | src/main/java/com/mobildev/exam/service/SubmitService.java:72-105 | the answers "Lyon" and 10 score 50.00 |
| `ExamAssembly.FirstRow` | src/main/java/com/mobildev/exam/service/ExamService.java:98-116 | the position of the first row that carries a question id; no earlier row carries it |
| `ExamAssembly.OptionsFor` | src/main/java/com/mobildev/exam/service/ExamService.java:118-126 | every option listed for a question carries that question's id |
| `ExamAssembly.AddRow` | src/main/java/com/mobildev/exam/service/ExamService.java:92-126 | one loop iteration keeps the question-id lookup consistent with the question list |
| `ExamAssembly.Assemble` | src/main/java/com/mobildev/exam/service/ExamService.java:77-127 | the lookup holds exactly the non-null question ids of the rows; the fold succeeds exactly when every question's first row has a known type name |
| `ExamAssembly.AssembleIsFaithful` | src/main/java/com/mobildev/exam/service/ExamService.java:98-126 | each built question matches its first row in exam id, text and type; its options are all its rows' options; questions are ordered by first appearance |
| `ExamAssembly.GetExamResponseById` | src/main/java/com/mobildev/exam/service/ExamService.java:65-139 | a storage failure or no rows gives `null`; an exam is found exactly when there are rows and every first row's type parses; the header comes from the first row only |
| `ExamAssembly.FoundExamMatchesRows` | src/main/java/com/mobildev/exam/service/ExamService.java:80-126 | a found exam has exactly one question per distinct non-null question id, with distinct ids, in order of first appearance, each agreeing with its rows |
| `ExamAssembly.AssembledOptionCount` | src/main/java/com/mobildev/exam/service/ExamService.java:92-126 | the options in the tree number exactly the rows that carry both a question id and an option id |
| `ExamAssembly.FoundOptionCount` | src/main/java/com/mobildev/exam/service/ExamService.java:118-126 | the same count holds for a found exam |
| `ExamAssembly.AssembleStopsAtFirstBadType` | src/main/java/com/mobildev/exam/service/ExamService.java:98-104 | the first question whose first-row type name fails to parse stops the fold with that fault |
| `ExamAssembly.BadTypeOutcome` | src/main/java/com/mobildev/exam/service/ExamService.java:104-137 | that fault makes the answer `null` for an unknown name and an escaping exception for a NULL name |
| `ExamAssembly.NullQuestionRowIsSkipped` | src/main/java/com/mobildev/exam/service/ExamService.java:92-96 | after the first row, a row without a question id can be removed without changing the answer |
| `ExamAssembly.ExamWithoutQuestions` | src/main/java/com/mobildev/exam/service/ExamService.java:80-96 | rows with no question ids give the first row's exam with an empty question list |
| `ExamAssembly.OptionsForWithoutOptionRows` | src/main/java/com/mobildev/exam/service/ExamService.java:118-126 | a question none of whose rows has an option id gets an empty option list |
| `ExamAssembly.GetAllExams` | src/main/java/com/mobildev/exam/service/ExamService.java:32-55 | a storage failure gives an empty list; otherwise one exam per row, in order, with that row's fields and no questions |
| `ExamAssembly.DetailAgreesWithSummary` | src/main/java/com/mobildev/exam/service/ExamService.java:38-90 | an exam with no questions is reported by `getExamResponseById` exactly as `getAllExams` lists it |

## Left out

- HTTP handlers, token handling (`JwtUtil`), the connection pool (`DatabaseManager`) and server start-up
  are routing and plumbing around the core.
- `ExamDAO` row mapping is left out. It reads `question_id` and `option_id` with `getInt`, which turns
  SQL NULL into 0, so at run time the null checks in `ExamService` never fire. The model takes the ids
  as optional, exactly as `ExamService` is written. It claims nothing about end-to-end phantom questions
  or options. `ExamDAO` as given has no `getAllExams` query, so the list rows are a parameter.
- Storage failures inside `SubmitService` are left out. A `SQLException` from any read or write simply
  propagates. The model assumes every query and write succeeds and does not model partial writes.
- Floating point is left out. The Java computes the score as a `double` and rounds `new BigDecimal(double)`.
  The model uses exact integer arithmetic in hundredths, so a binary value just below an exact half may
  round differently.
- Case folding is ASCII only. `Text` folds only `A`-`Z` and `a`-`z`, not the full Unicode rules of
  `equalsIgnoreCase`.
- The user lookup uses exact string equality. It ignores any collation the SQL `username = ?` comparison
  may apply.
- A `null` answer list or a `null` answer element would throw `NullPointerException`. Answers are a
  plain sequence here.
- Logging and JSON serialisation are left out. The returned message is the constant success text; the
  JSON string is not built.
- Ids are unbounded integers, not 32-bit. No arithmetic is done on ids, and answer counts are assumed
  far below 2^31.
- `executeBatch` runs the queued inserts as one call. The trace lists the inserts one by one, in queue
  order, and says nothing about whether the batch is atomic.
- Concurrent submissions are not modelled. Each call is one pure function.
