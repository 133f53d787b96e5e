/**
  The submission flow (`processExamSubmission`): resolve the username, build
  the answer key, grade and queue the answers, then write one result row.
  Storage writes are returned as an ordered trace instead of being performed.
 */
module Submission {
  import opened Common
  import opened AnswerKey
  import opened Grading
  import opened Scoring
  import opened Text

  /** One row of the `users` table. */
  datatype UserRow = UserRow(username: string, id: int)

  /** The request body; its `userId` and `examId` fields are carried but never read here. */
  datatype ExamSubmission = ExamSubmission(userId: int, examId: int, answers: seq<Answer>)

  /** A storage write, in the order it is issued. */
  datatype Write =
    | AnswerInserted(record: AnswerRecord)
    | ResultInserted(userId: int, examId: int, scoreHundredths: nat)

  /** `processExamSubmission` either throws for an unknown username or returns a scored result. */
  datatype SubmitOutcome =
    | UsernameNotFound(username: string)
    | Scored(message: string, scoreHundredths: nat, writes: seq<Write>)

  const SuccessMessage: string := "Exam submitted and scored successfully."

  /** `getUserIdFromUsername`: the id on the first row whose username matches. */
  function LookupUser(users: seq<UserRow>, username: string): (r: Option<int>)
    ensures r.None? <==> forall i :: 0 <= i < |users| ==> users[i].username != username
    ensures r.Some? ==> exists i :: 0 <= i < |users| && users[i].username == username && users[i].id == r.value
                           && forall j :: 0 <= j < i ==> users[j].username != username
  {
    if |users| == 0 then None
    else if users[0].username == username then Some(users[0].id)
    else
      var r := LookupUser(users[1..], username);
      assert forall i :: 1 <= i < |users| ==> users[i] == users[1..][i - 1];
      r
  }

  function AnswerWrites(records: seq<AnswerRecord>): (ws: seq<Write>)
    ensures |ws| == |records|
    ensures forall k :: 0 <= k < |records| ==> ws[k] == AnswerInserted(records[k])
  {
    if |records| == 0 then [] else [AnswerInserted(records[0])] + AnswerWrites(records[1..])
  }

  /**
    `processExamSubmission(username, examId, submission)` over the users table
    and the correct-answer rows of the exam.
   */
  function Submit(users: seq<UserRow>, keyRows: seq<KeyRow>, username: string, examId: int, submission: ExamSubmission)
    : (r: SubmitOutcome)
    ensures r.UsernameNotFound? <==> LookupUser(users, username).None?
    ensures r.UsernameNotFound? ==> r.username == username
    ensures r.Scored? ==> r.message == SuccessMessage && r.scoreHundredths <= FullMarks
    ensures r.Scored? ==> |submission.answers| == 0 ==> r.scoreHundredths == 0
    // otherwise the score is correct answers over submitted answers, in hundredths, rounded half up
    ensures r.Scored? ==> |submission.answers| > 0 ==>
              var n := |submission.answers|;
              var raw := RawScore(BuildKey(keyRows), submission.answers);
              2 * n * r.scoreHundredths <= 20000 * raw + n < 2 * n * r.scoreHundredths + 2 * n
    // the answer inserts come first and the single result insert, carrying the returned score, comes last
    ensures r.Scored? ==> (
      && |r.writes| >= 1
      && r.writes[|r.writes| - 1] == ResultInserted(LookupUser(users, username).value, examId, r.scoreHundredths)
      && forall k :: 0 <= k < |r.writes| - 1 ==> r.writes[k].AnswerInserted?)
  {
    match LookupUser(users, username)
    case None => UsernameNotFound(username)
    case Some(userId) =>
      var key := BuildKey(keyRows);
      var total := |submission.answers|;
      var raw := RawScore(key, submission.answers);
      var records := AnswerRecords(userId, examId, key, submission.answers);
      var score := FinalScore(raw, total);
      Scored(SuccessMessage, score, AnswerWrites(records) + [ResultInserted(userId, examId, score)])
  }

  /**
    The answer inserts are exactly the answers whose question has a key entry,
    in submission order, each carrying the resolved user id and the target exam id.
   */
  lemma SubmitRecordsKeptAnswers(users: seq<UserRow>, keyRows: seq<KeyRow>, username: string, examId: int, submission: ExamSubmission)
    requires Submit(users, keyRows, username, examId, submission).Scored?
    ensures var r := Submit(users, keyRows, username, examId, submission);
            var kept := KeptIndices(BuildKey(keyRows), submission.answers);
            && |r.writes| == |kept| + 1
            && forall k :: 0 <= k < |kept| ==>
                 r.writes[k] == AnswerInserted(RecordOf(LookupUser(users, username).value, examId, submission.answers[kept[k]]))
  {
    RecordsFollowKeptAnswers(LookupUser(users, username).value, examId, BuildKey(keyRows), submission.answers);
  }

  /** Resubmitting the same answers in another order yields the same score. */
  lemma SubmitScoreIsOrderIndependent(users: seq<UserRow>, keyRows: seq<KeyRow>, username: string, examId: int,
                                      s: ExamSubmission, t: ExamSubmission)
    requires multiset(s.answers) == multiset(t.answers)
    ensures Submit(users, keyRows, username, examId, s).Scored? <==> Submit(users, keyRows, username, examId, t).Scored?
    ensures Submit(users, keyRows, username, examId, s).Scored? ==>
              Submit(users, keyRows, username, examId, s).scoreHundredths == Submit(users, keyRows, username, examId, t).scoreHundredths
  {
    RawScoreIsOrderIndependent(BuildKey(keyRows), s.answers, t.answers);
    assert |s.answers| == |multiset(s.answers)| == |multiset(t.answers)| == |t.answers|;
  }

  /** The exam id inside the submission is never compared with the target exam id. */
  lemma SubmitIgnoresEmbeddedIds(users: seq<UserRow>, keyRows: seq<KeyRow>, username: string, examId: int,
                                 submission: ExamSubmission, otherUser: int, otherExam: int)
    ensures Submit(users, keyRows, username, examId, submission)
         == Submit(users, keyRows, username, examId, ExamSubmission(otherUser, otherExam, submission.answers))
  {
  }

  /**
    The worked example: question 1 is CLASSIC with key text "Paris", question 2
    is MULTIPLE_CHOICE with option 10 flagged correct.
   */
  function ExampleKeyRows(): seq<KeyRow> {
    [ KeyRow(1, Some("CLASSIC"), Some("Paris"), None, None),
      KeyRow(2, Some("MULTIPLE_CHOICE"), None, Some(10), Some(true)),
      KeyRow(2, Some("MULTIPLE_CHOICE"), None, Some(11), Some(false)) ]
  }

  function ExampleUsers(): seq<UserRow> {
    [UserRow("student", 7)]
  }

  lemma ExampleKey()
    ensures BuildKey(ExampleKeyRows()) == map[1 := KeyEntry(Some("CLASSIC"), Some("Paris"), None),
                                               2 := KeyEntry(Some("MULTIPLE_CHOICE"), None, Some(10))]
  {
    var rows := ExampleKeyRows();
    assert rows[..0] == [];
    assert rows[..1][..0] == [];
    assert rows[..2][..1] == rows[..1];
    assert rows[..3][..2] == rows[..2];
    assert rows[..3] == rows;
  }

  function ExampleAnswers(): seq<Answer> {
    [Answer(1, None, Some("paris")), Answer(2, Some(10), None)]
  }

  /** Both example answers are correct against the example key. */
  lemma ExampleGrades()
    ensures GradeOf(BuildKey(ExampleKeyRows()), ExampleAnswers()[0]) == 1
    ensures GradeOf(BuildKey(ExampleKeyRows()), ExampleAnswers()[1]) == 1
  {
    ExampleKey();
    var key := BuildKey(ExampleKeyRows());
    var answers := ExampleAnswers();
    assert ToLower("Paris") == ToLower("paris");
    assert TextMatches(answers[0].answerText, key[1].correctText);
    assert OptionMatches(answers[1].selectedOptionId, key[2].correctOptionId);
  }

  /** The raw score of two answers is the sum of their grades. */
  lemma RawScoreOfTwo(key: Key, a: Answer, b: Answer)
    ensures RawScore(key, [a, b]) == GradeOf(key, a) + GradeOf(key, b)
  {
    assert [a, b][..1] == [a];
    assert [a][..0] == [];
  }

  lemma ExampleRawScore()
    ensures RawScore(BuildKey(ExampleKeyRows()), ExampleAnswers()) == 2
  {
    ExampleGrades();
    RawScoreOfTwo(BuildKey(ExampleKeyRows()), ExampleAnswers()[0], ExampleAnswers()[1]);
    assert ExampleAnswers() == [ExampleAnswers()[0], ExampleAnswers()[1]];
  }

  lemma ExampleRecords()
    ensures AnswerRecords(7, 3, BuildKey(ExampleKeyRows()), ExampleAnswers())
         == [AnswerRecord(7, 3, 1, None, Some("paris")), AnswerRecord(7, 3, 2, Some(10), None)]
  {
    ExampleKey();
    var key := BuildKey(ExampleKeyRows());
    var answers := ExampleAnswers();
    AnswerRecordsSnoc(7, 3, key, [], answers[0]);
    AnswerRecordsSnoc(7, 3, key, [answers[0]], answers[1]);
    assert [] + [answers[0]] == [answers[0]];
    assert [answers[0]] + [answers[1]] == answers;
  }

  /** "paris" and option 10 score 100.00, and both answers are recorded before the result. */
  lemma ExampleAllCorrect()
    ensures Submit(ExampleUsers(), ExampleKeyRows(), "student", 3, ExamSubmission(7, 3, ExampleAnswers()))
         == Scored(SuccessMessage, 10000, [ AnswerInserted(AnswerRecord(7, 3, 1, None, Some("paris"))),
                                            AnswerInserted(AnswerRecord(7, 3, 2, Some(10), None)),
                                            ResultInserted(7, 3, 10000) ])
  {
    ExampleRawScore();
    ExampleRecords();
    FinalScoreExtremes(2);
    assert LookupUser(ExampleUsers(), "student") == Some(7);
    var records := [AnswerRecord(7, 3, 1, None, Some("paris")), AnswerRecord(7, 3, 2, Some(10), None)];
    assert AnswerWrites(records) == [AnswerInserted(records[0]), AnswerInserted(records[1])];
  }

  /** "Lyon" and option 10 score 50.00. */
  lemma ExampleHalfCorrect()
    ensures Submit(ExampleUsers(), ExampleKeyRows(), "student", 3,
                   ExamSubmission(7, 3, [Answer(1, None, Some("Lyon")), Answer(2, Some(10), None)])).scoreHundredths == 5000
  {
    ExampleKey();
    var key := BuildKey(ExampleKeyRows());
    var answers := [Answer(1, None, Some("Lyon")), Answer(2, Some(10), None)];
    assert ToLower("Paris") != ToLower("Lyon") by {
      assert |ToLower("Paris")| != |ToLower("Lyon")|;
    }
    assert GradeOf(key, answers[0]) == 0;
    assert GradeOf(key, answers[1]) == 1;
    RawScoreOfTwo(key, answers[0], answers[1]);
    assert FinalScore(1, 2) == 5000;
  }

  /** No answers score 0.00 and only the result row is written. */
  lemma ExampleNoAnswers()
    ensures Submit(ExampleUsers(), ExampleKeyRows(), "student", 3, ExamSubmission(7, 3, []))
         == Scored(SuccessMessage, 0, [ResultInserted(7, 3, 0)])
  {
  }

  /** An unknown username writes nothing. */
  lemma ExampleUnknownUser()
    ensures Submit(ExampleUsers(), ExampleKeyRows(), "teacher", 3, ExamSubmission(7, 3, [])) == UsernameNotFound("teacher")
  {
  }
}
