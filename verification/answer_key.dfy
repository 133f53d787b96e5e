/**
  Building the answer key (`SubmitService.getCorrectAnswers`): the rows of
  `questions LEFT JOIN options` for one exam are folded, in the order read,
  into one entry per question id.
 */
module AnswerKey {
  import opened Common
  import opened QuestionTypes

  /** One row of the correct-answer query; every nullable column is an `Option`. */
  datatype KeyRow = KeyRow(
    questionId: int,
    questionType: Option<string>,
    correctAnswer: Option<string>,
    optionId: Option<int>,
    isCorrect: Option<bool>)

  /**
    The per-question map of the source. `correctText` is `None` both when the
    "correctAnswerText" key was never put and when `null` was put under it:
    the map is only ever read with `get`, which cannot tell them apart.
   */
  datatype KeyEntry = KeyEntry(
    questionType: Option<string>,
    correctText: Option<string>,
    correctOptionId: Option<int>)

  type Key = map<int, KeyEntry>

  /** `ResultSet.getInt`: SQL NULL reads as 0. */
  function SqlInt(v: Option<int>): int {
    v.GetOr(0)
  }

  /** `ResultSet.getBoolean`: SQL NULL reads as false. */
  function SqlBool(v: Option<bool>): bool {
    v.GetOr(false)
  }

  /** The row overwrites the key text of its question. */
  predicate SetsText(row: KeyRow, q: int) {
    row.questionId == q && row.questionType == Some(Name(Classic))
  }

  /** The row overwrites the correct option id of its question. */
  predicate FlagsOption(row: KeyRow, q: int) {
    row.questionId == q && row.questionType == Some(Name(MultipleChoice)) && SqlBool(row.isCorrect)
  }

  /** Row `i` is the last row that sets the key text of `q`. */
  predicate LastTextRow(rows: seq<KeyRow>, q: int, i: int) {
    0 <= i < |rows| && SetsText(rows[i], q) && forall j :: i < j < |rows| ==> !SetsText(rows[j], q)
  }

  /** Row `i` is the last row that flags a correct option of `q`. */
  predicate LastFlaggedRow(rows: seq<KeyRow>, q: int, i: int) {
    0 <= i < |rows| && FlagsOption(rows[i], q) && forall j :: i < j < |rows| ==> !FlagsOption(rows[j], q)
  }

  /** One iteration of the read loop. */
  function Absorb(key: Key, row: KeyRow): Key {
    var before := if row.questionId in key then key[row.questionId] else KeyEntry(None, None, None);
    var typed := before.(questionType := row.questionType);
    var entry :=
      if row.questionType == Some(Name(Classic)) then typed.(correctText := row.correctAnswer)
      else if row.questionType == Some(Name(MultipleChoice)) && SqlBool(row.isCorrect) then
        typed.(correctOptionId := Some(SqlInt(row.optionId)))
      else typed;
    key[row.questionId := entry]
  }

  /** `getCorrectAnswers`: the whole read loop, newest row last. */
  function BuildKey(rows: seq<KeyRow>): (key: Key)
    ensures forall q :: q in key <==> exists i :: 0 <= i < |rows| && rows[i].questionId == q
  {
    if |rows| == 0 then map[]
    else
      var prefix := rows[..|rows| - 1];
      var key := Absorb(BuildKey(prefix), rows[|rows| - 1]);
      assert forall i :: 0 <= i < |prefix| ==> prefix[i] == rows[i];
      key
  }

  /** Every prefix fold is extended by absorbing the next row. */
  lemma BuildKeySnoc(rows: seq<KeyRow>, row: KeyRow)
    ensures BuildKey(rows + [row]) == Absorb(BuildKey(rows), row)
  {
    assert (rows + [row])[..|rows|] == rows;
  }

  /** A question's type is the one on the last row read for it. */
  lemma {:induction false} KeyTypeIsFromLastRow(rows: seq<KeyRow>, q: int, i: int)
    requires 0 <= i < |rows| && rows[i].questionId == q
    requires forall j :: i < j < |rows| ==> rows[j].questionId != q
    ensures q in BuildKey(rows)
    ensures BuildKey(rows)[q].questionType == rows[i].questionType
    decreases |rows|
  {
    var prefix, last := rows[..|rows| - 1], rows[|rows| - 1];
    assert rows == prefix + [last];
    BuildKeySnoc(prefix, last);
    if i < |rows| - 1 {
      KeyTypeIsFromLastRow(prefix, q, i);
    }
  }

  /**
    A CLASSIC key text is the `correct_answer` of the last CLASSIC row read for
    the question, and absent when there is none.
   */
  lemma {:induction false} KeyTextIsFromLastClassicRow(rows: seq<KeyRow>, q: int)
    requires q in BuildKey(rows)
    ensures (forall i :: 0 <= i < |rows| ==> !SetsText(rows[i], q)) ==> BuildKey(rows)[q].correctText == None
    ensures forall i :: LastTextRow(rows, q, i) ==> BuildKey(rows)[q].correctText == rows[i].correctAnswer
    decreases |rows|
  {
    var prefix, last := rows[..|rows| - 1], rows[|rows| - 1];
    assert rows == prefix + [last];
    BuildKeySnoc(prefix, last);
    if q in BuildKey(prefix) {
      KeyTextIsFromLastClassicRow(prefix, q);
    }
    assert forall i :: 0 <= i < |prefix| ==> prefix[i] == rows[i];
  }

  /**
    A MULTIPLE_CHOICE key option is the option id of the last row read for the
    question whose `is_correct` is true, and absent when no row is flagged.
   */
  lemma {:induction false} KeyOptionIsFromLastFlaggedRow(rows: seq<KeyRow>, q: int)
    requires q in BuildKey(rows)
    ensures (forall i :: 0 <= i < |rows| ==> !FlagsOption(rows[i], q)) ==> BuildKey(rows)[q].correctOptionId == None
    ensures forall i :: LastFlaggedRow(rows, q, i) ==> BuildKey(rows)[q].correctOptionId == Some(SqlInt(rows[i].optionId))
    decreases |rows|
  {
    var prefix, last := rows[..|rows| - 1], rows[|rows| - 1];
    assert rows == prefix + [last];
    BuildKeySnoc(prefix, last);
    if q in BuildKey(prefix) {
      KeyOptionIsFromLastFlaggedRow(prefix, q);
    }
    assert forall i :: 0 <= i < |prefix| ==> prefix[i] == rows[i];
  }
}
