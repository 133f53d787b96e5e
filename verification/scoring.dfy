/**
  Scoring a whole submission (`saveUserAnswersAndScore` and the arithmetic of
  `processExamSubmission`): per-answer grades are summed, one answer record is
  queued per answer whose question has a key entry, and the final score is
  raw / total * 100 rounded half-up to two decimals, kept here in hundredths.
 */
module Scoring {
  import opened Common
  import opened AnswerKey
  import opened Grading

  /** One queued `INSERT INTO user_answers`; `None` in the option column is SQL NULL. */
  datatype AnswerRecord = AnswerRecord(
    userId: int,
    examId: int,
    questionId: int,
    selectedOptionId: Option<int>,
    answerText: Option<string>)

  /** The largest score, 100.00, in hundredths. */
  const FullMarks: nat := 10000

  function RecordOf(userId: int, examId: int, answer: Answer): AnswerRecord {
    AnswerRecord(userId, examId, answer.questionId, answer.selectedOptionId, answer.answerText)
  }

  /** The grade one answer adds to the running score; 0 when its question has no key entry. */
  function GradeOf(key: Key, answer: Answer): (g: nat)
    ensures g <= 1
    ensures g == 1 <==> answer.questionId in key && Correct(answer, key[answer.questionId])
  {
    if answer.questionId in key then CalculateScore(answer, key[answer.questionId]) else 0
  }

  /** The raw score after the answers, in order. */
  function RawScore(key: Key, answers: seq<Answer>): (raw: nat)
    ensures raw <= |answers|
  {
    if |answers| == 0 then 0
    else RawScore(key, answers[..|answers| - 1]) + GradeOf(key, answers[|answers| - 1])
  }

  /** The answer records queued after the answers, in order. */
  function AnswerRecords(userId: int, examId: int, key: Key, answers: seq<Answer>): (recs: seq<AnswerRecord>)
    ensures |recs| <= |answers|
    ensures forall k :: 0 <= k < |recs| ==>
              recs[k].userId == userId && recs[k].examId == examId && recs[k].questionId in key
  {
    if |answers| == 0 then []
    else
      var last := answers[|answers| - 1];
      AnswerRecords(userId, examId, key, answers[..|answers| - 1])
        + (if last.questionId in key then [RecordOf(userId, examId, last)] else [])
  }

  /** The positions of the answers whose question has a key entry, in increasing order. */
  ghost function KeptIndices(key: Key, answers: seq<Answer>): (ks: seq<int>)
    ensures forall k :: 0 <= k < |ks| ==> 0 <= ks[k] < |answers| && answers[ks[k]].questionId in key
    ensures forall k, l :: 0 <= k < l < |ks| ==> ks[k] < ks[l]
    ensures forall i :: 0 <= i < |answers| && answers[i].questionId in key ==> i in ks
  {
    if |answers| == 0 then []
    else
      var n := |answers| - 1;
      var prefix := answers[..n];
      var ks := KeptIndices(key, prefix);
      assert forall i :: 0 <= i < n ==> prefix[i] == answers[i];
      if answers[n].questionId in key then ks + [n] else ks
  }

  lemma RawScoreSnoc(key: Key, answers: seq<Answer>, a: Answer)
    ensures RawScore(key, answers + [a]) == RawScore(key, answers) + GradeOf(key, a)
  {
    assert (answers + [a])[..|answers|] == answers;
  }

  lemma AnswerRecordsSnoc(userId: int, examId: int, key: Key, answers: seq<Answer>, a: Answer)
    ensures AnswerRecords(userId, examId, key, answers + [a])
         == AnswerRecords(userId, examId, key, answers) + (if a.questionId in key then [RecordOf(userId, examId, a)] else [])
  {
    assert (answers + [a])[..|answers|] == answers;
  }

  /** The raw score of a concatenation is the sum of the raw scores. */
  lemma {:induction false} RawScoreAppend(key: Key, a: seq<Answer>, b: seq<Answer>)
    ensures RawScore(key, a + b) == RawScore(key, a) + RawScore(key, b)
    decreases |b|
  {
    if |b| > 0 {
      var b', x := b[..|b| - 1], b[|b| - 1];
      assert b == b' + [x];
      assert a + b == (a + b') + [x];
      RawScoreAppend(key, a, b');
      RawScoreSnoc(key, a + b', x);
      RawScoreSnoc(key, b', x);
    } else {
      assert a + b == a;
    }
  }

  /** The queued records of a concatenation are the records of each part, in order. */
  lemma {:induction false} AnswerRecordsAppend(userId: int, examId: int, key: Key, a: seq<Answer>, b: seq<Answer>)
    ensures AnswerRecords(userId, examId, key, a + b)
         == AnswerRecords(userId, examId, key, a) + AnswerRecords(userId, examId, key, b)
    decreases |b|
  {
    if |b| > 0 {
      var b', x := b[..|b| - 1], b[|b| - 1];
      assert b == b' + [x];
      assert a + b == (a + b') + [x];
      AnswerRecordsAppend(userId, examId, key, a, b');
      AnswerRecordsSnoc(userId, examId, key, a + b', x);
      AnswerRecordsSnoc(userId, examId, key, b', x);
    } else {
      assert a + b == a;
    }
  }

  /**
    Exactly one record per answer with a key entry, in input order: record `k`
    is built from the `k`-th such answer.
   */
  lemma {:induction false} RecordsFollowKeptAnswers(userId: int, examId: int, key: Key, answers: seq<Answer>)
    ensures |AnswerRecords(userId, examId, key, answers)| == |KeptIndices(key, answers)|
    ensures forall k :: 0 <= k < |KeptIndices(key, answers)| ==>
              AnswerRecords(userId, examId, key, answers)[k] == RecordOf(userId, examId, answers[KeptIndices(key, answers)[k]])
    decreases |answers|
  {
    if |answers| > 0 {
      var n := |answers| - 1;
      var prefix := answers[..n];
      RecordsFollowKeptAnswers(userId, examId, key, prefix);
      assert answers == prefix + [answers[n]];
      AnswerRecordsSnoc(userId, examId, key, prefix, answers[n]);
      var ks := KeptIndices(key, prefix);
      assert forall k :: 0 <= k < |ks| ==> answers[ks[k]] == prefix[ks[k]];
      if answers[n].questionId in key {
        assert KeptIndices(key, answers) == ks + [n];
      } else {
        assert KeptIndices(key, answers) == ks;
      }
    }
  }

  /**
    An answer whose question has no key entry is inert: it adds nothing to the
    raw score and queues no record, wherever it stands.
   */
  lemma UnkeyedAnswerIsSkipped(userId: int, examId: int, key: Key, before: seq<Answer>, x: Answer, after: seq<Answer>)
    requires x.questionId !in key
    ensures RawScore(key, before + [x] + after) == RawScore(key, before + after)
    ensures AnswerRecords(userId, examId, key, before + [x] + after) == AnswerRecords(userId, examId, key, before + after)
  {
    RawScoreAppend(key, before + [x], after);
    RawScoreAppend(key, before, after);
    RawScoreSnoc(key, before, x);
    AnswerRecordsAppend(userId, examId, key, before + [x], after);
    AnswerRecordsAppend(userId, examId, key, before, after);
    AnswerRecordsSnoc(userId, examId, key, before, x);
  }

  /** The raw score does not depend on the order the answers were submitted in. */
  lemma {:induction false} RawScoreIsOrderIndependent(key: Key, a: seq<Answer>, b: seq<Answer>)
    requires multiset(a) == multiset(b)
    ensures RawScore(key, a) == RawScore(key, b)
    decreases |a|
  {
    if |a| == 0 {
      assert |b| == |multiset(b)| == 0;
    } else {
      var a', x := a[..|a| - 1], a[|a| - 1];
      assert a == a' + [x];
      assert x in multiset(b);
      var j :| 0 <= j < |b| && b[j] == x;
      var b' := b[..j] + b[j + 1..];
      assert b == b[..j] + [x] + b[j + 1..];
      assert multiset(a') == multiset(b') by {
        assert multiset(a) == multiset(a') + multiset{x};
        assert multiset(b) == multiset(b[..j]) + multiset{x} + multiset(b[j + 1..]);
        assert multiset(b') == multiset(b[..j]) + multiset(b[j + 1..]);
        assert multiset(a') + multiset{x} == multiset(b') + multiset{x};
        assert multiset(a') == multiset(a') + multiset{x} - multiset{x};
      }
      RawScoreIsOrderIndependent(key, a', b');
      RawScoreSnoc(key, a', x);
      RawScoreAppend(key, b[..j] + [x], b[j + 1..]);
      RawScoreSnoc(key, b[..j], x);
      RawScoreAppend(key, b[..j], b[j + 1..]);
    }
  }

  /**
    `saveUserAnswersAndScore`: one pass over the answers that accumulates the
    raw score and the batch of answer inserts.
   */
  method SaveUserAnswersAndScore(userId: int, examId: int, answers: seq<Answer>, key: Key)
    returns (score: nat, batch: seq<AnswerRecord>)
    ensures score == RawScore(key, answers)
    ensures batch == AnswerRecords(userId, examId, key, answers)
  {
    score, batch := 0, [];
    var i := 0;
    while i < |answers|
      invariant i <= |answers|
      invariant score == RawScore(key, answers[..i])
      invariant batch == AnswerRecords(userId, examId, key, answers[..i])
    {
      var answer := answers[i];
      assert answers[..i + 1] == answers[..i] + [answer];
      RawScoreSnoc(key, answers[..i], answer);
      AnswerRecordsSnoc(userId, examId, key, answers[..i], answer);
      if answer.questionId !in key {
        i := i + 1;
        continue;
      }
      score := score + CalculateScore(answer, key[answer.questionId]);
      batch := batch + [RecordOf(userId, examId, answer)];
      i := i + 1;
    }
    assert answers[..i] == answers;
  }

  /**
    The final score in hundredths: `raw / total * 100` rounded half-up to two
    decimals, and 0 without dividing when nothing was submitted.
   */
  function FinalScore(raw: nat, total: nat): (h: nat)
    ensures total == 0 ==> h == 0
    // h is the integer nearest to 10000 * raw / total, a tie going up
    ensures total > 0 ==> 2 * total * h <= 20000 * raw + total < 2 * total * h + 2 * total
    ensures raw <= total ==> h <= FullMarks
  {
    if total == 0 then 0
    else
      var h := (20000 * raw + total) / (2 * total);
      DivisionBounds(20000 * raw + total, 2 * total);
      RoundedAtMostFullMarks(raw, total, h);
      h
  }

  lemma RoundedAtMostFullMarks(raw: nat, total: nat, h: nat)
    requires total > 0 && 2 * total * h <= 20000 * raw + total
    ensures raw <= total ==> h <= FullMarks
  {
    if raw <= total {
      assert 2 * total * h < 2 * total * (FullMarks + 1);
      FactorCancels(2 * total, h, FullMarks + 1);
    }
  }

  lemma DivisionBounds(n: nat, d: nat)
    requires d > 0
    ensures d * (n / d) <= n < d * (n / d) + d
  {
  }

  /** A positive common factor can be cancelled from a strict inequality. */
  lemma FactorCancels(d: nat, x: nat, y: nat)
    requires d > 0 && d * x < d * y
    ensures x < y
  {
    if x >= y {
      MultiplyMonotonic(d, y, x);
    }
  }

  lemma MultiplyMonotonic(c: nat, x: nat, y: nat)
    requires x <= y
    ensures c * x <= c * y
  {
  }

  /** A higher raw score out of the same total never lowers the final score. */
  lemma FinalScoreIsMonotonic(raw: nat, raw': nat, total: nat)
    requires raw <= raw'
    ensures FinalScore(raw, total) <= FinalScore(raw', total)
  {
    if total > 0 {
      var h, h' := FinalScore(raw, total), FinalScore(raw', total);
      assert 2 * total * h < 2 * total * (h' + 1);
      FactorCancels(2 * total, h, h' + 1);
    }
  }

  /** All answers right gives 100.00; none right gives 0.00. */
  lemma FinalScoreExtremes(total: nat)
    requires total > 0
    ensures FinalScore(total, total) == FullMarks
    ensures FinalScore(0, total) == 0
  {
    var h := FinalScore(total, total);
    assert 2 * total * h < 2 * total * (FullMarks + 1);
    FactorCancels(2 * total, h, FullMarks + 1);
    assert 2 * total * (FullMarks - 1) < 2 * total * h;
    FactorCancels(2 * total, FullMarks - 1, h);
    var z := FinalScore(0, total);
    assert 2 * total * z < 2 * total * 1;
    FactorCancels(2 * total, z, 1);
  }
}
