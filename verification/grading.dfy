/**
  Grading one submitted answer against its answer-key entry
  (`calculateScoreForQuestion`, `scoreClassicQuestion`,
  `scoreMultipleChoiceQuestion`). A grade is 1 or 0; no input is an error.
 */
module Grading {
  import opened Common
  import opened Text
  import opened QuestionTypes
  import opened AnswerKey

  /** One submitted answer: the question it answers and both optional payloads. */
  datatype Answer = Answer(questionId: int, selectedOptionId: Option<int>, answerText: Option<string>)

  /** The submitted text matches the key text up to letter case. */
  predicate TextMatches(submitted: Option<string>, expected: Option<string>) {
    submitted.Some? && expected.Some? && ToLower(expected.value) == ToLower(submitted.value)
  }

  /** The selected option is the key's correct option. */
  predicate OptionMatches(selected: Option<int>, expected: Option<int>) {
    selected.Some? && expected.Some? && selected.value == expected.value
  }

  /** What a correct answer is, per the key entry's type string. */
  predicate Correct(answer: Answer, entry: KeyEntry) {
    || (entry.questionType == Some(Name(Classic)) && TextMatches(answer.answerText, entry.correctText))
    || (entry.questionType == Some(Name(MultipleChoice)) && OptionMatches(answer.selectedOptionId, entry.correctOptionId))
  }

  /** `scoreClassicQuestion`. */
  function ScoreClassic(answer: Answer, correctText: Option<string>): (g: nat)
    ensures g <= 1
    ensures g == 1 <==> TextMatches(answer.answerText, correctText)
  {
    if answer.answerText.Some? && correctText.Some? then
      EqualsIgnoreCaseIsLowerEquality(correctText.value, answer.answerText.value);
      if EqualsIgnoreCase(correctText.value, answer.answerText.value) then 1 else 0
    else 0
  }

  /** `scoreMultipleChoiceQuestion`. */
  function ScoreMultipleChoice(answer: Answer, correctOptionId: Option<int>): (g: nat)
    ensures g <= 1
    ensures g == 1 <==> OptionMatches(answer.selectedOptionId, correctOptionId)
  {
    if answer.selectedOptionId.Some? && correctOptionId.Some? && correctOptionId.value == answer.selectedOptionId.value
    then 1 else 0
  }

  /** `calculateScoreForQuestion`: dispatch on the type string stored in the entry. */
  function CalculateScore(answer: Answer, entry: KeyEntry): (g: nat)
    ensures g <= 1
    ensures g == 1 <==> Correct(answer, entry)
    ensures entry.questionType != Some(Name(Classic)) && entry.questionType != Some(Name(MultipleChoice)) ==> g == 0
  {
    if entry.questionType == Some(Name(Classic)) then ScoreClassic(answer, entry.correctText)
    else if entry.questionType == Some(Name(MultipleChoice)) then ScoreMultipleChoice(answer, entry.correctOptionId)
    else 0
  }

  /** A CLASSIC answer differing from the key text only in letter case is graded correct. */
  lemma CaseVariantIsCorrect(key: string, submitted: string, questionId: int, selected: Option<int>)
    requires |key| == |submitted|
    requires forall i :: 0 <= i < |key| ==>
               submitted[i] == key[i] || submitted[i] == ToUpperChar(key[i]) || submitted[i] == ToLowerChar(key[i])
    ensures CalculateScore(Answer(questionId, selected, Some(submitted)), KeyEntry(Some(Name(Classic)), Some(key), None)) == 1
  {
    CaseVariantsMatch(key, submitted);
    EqualsIgnoreCaseIsLowerEquality(key, submitted);
  }

  /** For a CLASSIC entry, the selected option plays no part in the grade. */
  lemma ClassicIgnoresSelectedOption(answer: Answer, entry: KeyEntry, other: Option<int>)
    requires entry.questionType == Some(Name(Classic))
    ensures CalculateScore(answer.(selectedOptionId := other), entry) == CalculateScore(answer, entry)
  {
  }

  /** For a MULTIPLE_CHOICE entry, the answer text plays no part in the grade. */
  lemma MultipleChoiceIgnoresText(answer: Answer, entry: KeyEntry, other: Option<string>)
    requires entry.questionType == Some(Name(MultipleChoice))
    ensures CalculateScore(answer.(answerText := other), entry) == CalculateScore(answer, entry)
  {
  }
}
