/**
  Exam tree assembly (`ExamService.getExamResponseById`) and the exam list
  (`ExamService.getAllExams`). The detail rows of
  `exams LEFT JOIN questions LEFT JOIN options`, already ordered by
  (exam, question, option), are folded left to right into one exam holding
  its questions, each holding its options. A map from question id to the
  question's position stands for the source's question-id lookup.
 */
module ExamAssembly {
  import opened Common
  import opened QuestionTypes

  /** One joined detail row; question and option columns may be NULL. */
  datatype DetailRow = DetailRow(
    examId: int,
    title: Option<string>,
    description: Option<string>,
    durationMinutes: int,
    questionId: Option<int>,
    questionText: Option<string>,
    questionType: Option<string>,
    optionId: Option<int>,
    optionText: Option<string>)

  /** One row of the exam list query. */
  datatype SummaryRow = SummaryRow(examId: int, title: Option<string>, description: Option<string>, durationMinutes: int)

  datatype OptionDto = OptionDto(id: int, questionId: int, optionText: Option<string>)

  datatype QuestionDto = QuestionDto(
    id: int,
    examId: int,
    questionText: Option<string>,
    questionType: QuestionType,
    options: seq<OptionDto>)

  datatype ExamDto = ExamDto(
    id: int,
    title: Option<string>,
    description: Option<string>,
    durationMinutes: int,
    questions: seq<QuestionDto>)

  /**
    What `getExamResponseById` ends with: an exam, `null` (no rows, a storage
    failure or an unknown type name), or a `NullPointerException` that escapes
    because `valueOf(null)` is not among the exceptions it catches.
   */
  datatype ExamLookup = Found(exam: ExamDto) | NotFound | NullTypeThrown

  /** The questions built so far and the position of each question id among them. */
  datatype Tree = Tree(questions: seq<QuestionDto>, index: map<int, nat>)

  predicate WellIndexed(t: Tree) {
    && (forall q :: q in t.index ==> t.index[q] < |t.questions| && t.questions[t.index[q]].id == q)
    && (forall k :: 0 <= k < |t.questions| ==> t.questions[k].id in t.index && t.index[t.questions[k].id] == k)
  }

  // ----- Reference definitions over the rows -----

  /** Some row carries question id `q`. */
  predicate HasQuestion(rows: seq<DetailRow>, q: int) {
    exists i :: 0 <= i < |rows| && rows[i].questionId == Some(q)
  }

  /** The position of the first row carrying question id `q`. */
  function FirstRow(rows: seq<DetailRow>, q: int): (i: nat)
    requires HasQuestion(rows, q)
    ensures i < |rows| && rows[i].questionId == Some(q)
    ensures forall j :: 0 <= j < i ==> rows[j].questionId != Some(q)
  {
    if rows[0].questionId == Some(q) then 0
    else
      assert forall i :: 1 <= i < |rows| ==> rows[i] == rows[1..][i - 1];
      assert HasQuestion(rows[1..], q) by {
        var i :| 0 <= i < |rows| && rows[i].questionId == Some(q);
        assert rows[1..][i - 1].questionId == Some(q);
      }
      1 + FirstRow(rows[1..], q)
  }

  /** Row `i` is the first row of its (non-null) question id. */
  predicate IsFirst(rows: seq<DetailRow>, i: int) {
    && 0 <= i < |rows|
    && rows[i].questionId.Some?
    && forall j :: 0 <= j < i ==> rows[j].questionId != rows[i].questionId
  }

  /** Every question's type name, read on its first row, is a known constant. */
  predicate AllTypesParse(rows: seq<DetailRow>) {
    forall i :: 0 <= i < |rows| && IsFirst(rows, i) ==> ValueOf(rows[i].questionType).Ok?
  }

  /** The options of question `q`: one per row with that id and a non-null option id, in row order. */
  function OptionsFor(rows: seq<DetailRow>, q: int): (os: seq<OptionDto>)
    ensures forall k :: 0 <= k < |os| ==> os[k].questionId == q
  {
    if |rows| == 0 then []
    else
      var last := rows[|rows| - 1];
      OptionsFor(rows[..|rows| - 1], q)
        + (if last.questionId == Some(q) && last.optionId.Some? then [OptionDto(last.optionId.value, q, last.optionText)] else [])
  }

  /** The rows that carry both a question id and an option id. */
  function CountOptionRows(rows: seq<DetailRow>): (n: nat)
    ensures n <= |rows|
  {
    if |rows| == 0 then 0
    else
      var last := rows[|rows| - 1];
      CountOptionRows(rows[..|rows| - 1]) + (if last.questionId.Some? && last.optionId.Some? then 1 else 0)
  }

  function TotalOptions(qs: seq<QuestionDto>): nat {
    if |qs| == 0 then 0 else TotalOptions(qs[..|qs| - 1]) + |qs[|qs| - 1].options|
  }

  // ----- The fold -----

  /** Appends the row's option, if it has one, to the question. */
  function WithOption(question: QuestionDto, row: DetailRow): (r: QuestionDto)
    ensures r.(options := question.options) == question
  {
    if row.optionId.Some? then
      question.(options := question.options + [OptionDto(row.optionId.value, question.id, row.optionText)])
    else question
  }

  /** One iteration of the loop of `getExamResponseById`, after the exam shell exists. */
  function AddRow(t: Tree, row: DetailRow): (r: Result<Tree, ParseFault>)
    requires WellIndexed(t)
    ensures r.Ok? ==> WellIndexed(r.value)
  {
    match row.questionId
    case None => Ok(t)
    case Some(q) =>
      if q in t.index then
        var k := t.index[q];
        Ok(t.(questions := t.questions[k := WithOption(t.questions[k], row)]))
      else
        match ValueOf(row.questionType)
        case Err(f) => Err(f)
        case Ok(ty) =>
          var created := QuestionDto(q, row.examId, row.questionText, ty, []);
          Ok(Tree(t.questions + [WithOption(created, row)], t.index[q := |t.questions|]))
  }

  /** The whole loop over the rows; the first unparseable type name stops it. */
  function Assemble(rows: seq<DetailRow>): (r: Result<Tree, ParseFault>)
    ensures r.Ok? ==> WellIndexed(r.value)
    ensures r.Ok? ==> forall q :: q in r.value.index <==> HasQuestion(rows, q)
    ensures r.Ok? <==> AllTypesParse(rows)
  {
    if |rows| == 0 then Ok(Tree([], map[]))
    else
      var prefix, last := rows[..|rows| - 1], rows[|rows| - 1];
      assert rows == prefix + [last];
      SnocFacts(prefix, last);
      match Assemble(prefix)
      case Err(f) => Err(f)
      case Ok(t) => AddRowStep(prefix, last, t); AddRow(t, last)
  }

  /** What one fold step does to the set of indexed ids and to success. */
  lemma AddRowStep(prefix: seq<DetailRow>, last: DetailRow, t: Tree)
    requires WellIndexed(t)
    requires forall q :: q in t.index <==> HasQuestion(prefix, q)
    ensures AddRow(t, last).Ok? <==> (IsFirst(prefix + [last], |prefix|) ==> ValueOf(last.questionType).Ok?)
    ensures AddRow(t, last).Ok? ==> forall q :: q in AddRow(t, last).value.index <==> HasQuestion(prefix + [last], q)
  {
    SnocFacts(prefix, last);
  }

  /** How the reference definitions grow when a row is appended. */
  lemma SnocFacts(prefix: seq<DetailRow>, last: DetailRow)
    ensures forall q :: HasQuestion(prefix + [last], q) <==> HasQuestion(prefix, q) || last.questionId == Some(q)
    ensures forall i :: 0 <= i < |prefix| ==> (IsFirst(prefix + [last], i) <==> IsFirst(prefix, i))
    ensures IsFirst(prefix + [last], |prefix|) <==> last.questionId.Some? && !HasQuestion(prefix, last.questionId.value)
    ensures AllTypesParse(prefix + [last]) <==>
              AllTypesParse(prefix) && (IsFirst(prefix + [last], |prefix|) ==> ValueOf(last.questionType).Ok?)
    ensures (prefix + [last])[..|prefix|] == prefix
  {
    HasQuestionSnoc(prefix, last);
    IsFirstSnoc(prefix, last);
    IsFirstLast(prefix, last);
    AllTypesParseSnoc(prefix, last);
  }

  lemma HasQuestionSnoc(prefix: seq<DetailRow>, last: DetailRow)
    ensures forall q :: HasQuestion(prefix + [last], q) <==> HasQuestion(prefix, q) || last.questionId == Some(q)
  {
    var rows := prefix + [last];
    forall q | HasQuestion(prefix, q) ensures HasQuestion(rows, q) {
      var i :| 0 <= i < |prefix| && prefix[i].questionId == Some(q);
      assert rows[i] == prefix[i];
    }
    forall q | last.questionId == Some(q) ensures HasQuestion(rows, q) {
      assert rows[|prefix|] == last;
    }
    forall q | HasQuestion(rows, q) && last.questionId != Some(q) ensures HasQuestion(prefix, q) {
      var i :| 0 <= i < |rows| && rows[i].questionId == Some(q);
      assert i < |prefix| && rows[i] == prefix[i];
    }
  }

  lemma IsFirstSnoc(prefix: seq<DetailRow>, last: DetailRow)
    ensures forall i :: 0 <= i < |prefix| ==> (IsFirst(prefix + [last], i) <==> IsFirst(prefix, i))
  {
    var rows := prefix + [last];
    assert forall i :: 0 <= i < |prefix| ==> rows[i] == prefix[i];
  }

  lemma IsFirstLast(prefix: seq<DetailRow>, last: DetailRow)
    ensures IsFirst(prefix + [last], |prefix|) <==> last.questionId.Some? && !HasQuestion(prefix, last.questionId.value)
  {
    var rows := prefix + [last];
    assert forall i :: 0 <= i < |prefix| ==> rows[i] == prefix[i];
    assert rows[|prefix|] == last;
  }

  lemma AllTypesParseSnoc(prefix: seq<DetailRow>, last: DetailRow)
    ensures AllTypesParse(prefix + [last]) <==>
              AllTypesParse(prefix) && (IsFirst(prefix + [last], |prefix|) ==> ValueOf(last.questionType).Ok?)
  {
    var rows := prefix + [last];
    IsFirstSnoc(prefix, last);
    assert forall i :: 0 <= i < |prefix| ==> rows[i] == prefix[i];
    if AllTypesParse(prefix) && (IsFirst(rows, |prefix|) ==> ValueOf(last.questionType).Ok?) {
      forall i | 0 <= i < |rows| && IsFirst(rows, i) ensures ValueOf(rows[i].questionType).Ok? {
        if i < |prefix| {
          assert IsFirst(prefix, i);
        }
      }
    }
    if AllTypesParse(rows) {
      forall i | 0 <= i < |prefix| && IsFirst(prefix, i) ensures ValueOf(prefix[i].questionType).Ok? {
        assert IsFirst(rows, i);
      }
    }
  }

  // ----- What the fold builds -----

  /** A built question agrees with the rows: header from its first row, options from all of its rows. */
  ghost predicate MatchesRows(rows: seq<DetailRow>, question: QuestionDto) {
    && HasQuestion(rows, question.id)
    && question.options == OptionsFor(rows, question.id)
    && var i := FirstRow(rows, question.id);
       && question.examId == rows[i].examId
       && question.questionText == rows[i].questionText
       && ValueOf(rows[i].questionType) == Ok(question.questionType)
  }

  /** Every built question agrees with the rows, and questions appear in order of first appearance. */
  ghost predicate Faithful(rows: seq<DetailRow>, t: Tree) {
    && (forall k :: 0 <= k < |t.questions| ==> MatchesRows(rows, t.questions[k]))
    && (forall k, l :: 0 <= k < l < |t.questions| ==>
          FirstRow(rows, t.questions[k].id) < FirstRow(rows, t.questions[l].id))
  }

  lemma FirstRowSnoc(prefix: seq<DetailRow>, last: DetailRow, q: int)
    requires HasQuestion(prefix, q)
    ensures HasQuestion(prefix + [last], q)
    ensures FirstRow(prefix + [last], q) == FirstRow(prefix, q)
  {
    var rows := prefix + [last];
    assert forall i :: 0 <= i < |prefix| ==> rows[i] == prefix[i];
    var i := FirstRow(prefix, q);
    assert rows[i].questionId == Some(q);
  }

  lemma FirstRowNew(prefix: seq<DetailRow>, last: DetailRow, q: int)
    requires !HasQuestion(prefix, q) && last.questionId == Some(q)
    ensures HasQuestion(prefix + [last], q)
    ensures FirstRow(prefix + [last], q) == |prefix|
  {
    var rows := prefix + [last];
    assert rows[|prefix|] == last;
    assert forall i :: 0 <= i < |prefix| ==> rows[i] == prefix[i];
  }

  lemma OptionsForSnoc(prefix: seq<DetailRow>, last: DetailRow, q: int)
    ensures OptionsFor(prefix + [last], q) == OptionsFor(prefix, q)
      + (if last.questionId == Some(q) && last.optionId.Some? then [OptionDto(last.optionId.value, q, last.optionText)] else [])
  {
    assert (prefix + [last])[..|prefix|] == prefix;
  }

  lemma {:induction false} OptionsForAbsent(rows: seq<DetailRow>, q: int)
    requires !HasQuestion(rows, q)
    ensures OptionsFor(rows, q) == []
  {
    if |rows| > 0 {
      var prefix, last := rows[..|rows| - 1], rows[|rows| - 1];
      assert rows == prefix + [last];
      SnocFacts(prefix, last);
      OptionsForAbsent(prefix, q);
    }
  }

  /** A row without a question id leaves a faithful tree faithful. */
  lemma StepWithoutQuestion(prefix: seq<DetailRow>, last: DetailRow, t: Tree)
    requires last.questionId.None?
    requires Faithful(prefix, t)
    ensures Faithful(prefix + [last], t)
  {
    var rows := prefix + [last];
    forall k | 0 <= k < |t.questions|
      ensures MatchesRows(rows, t.questions[k])
      ensures FirstRow(rows, t.questions[k].id) == FirstRow(prefix, t.questions[k].id)
    {
      FirstRowSnoc(prefix, last, t.questions[k].id);
      OptionsForSnoc(prefix, last, t.questions[k].id);
    }
  }

  /** A further row of a known question adds its option to that question only. */
  lemma StepKnownQuestion(prefix: seq<DetailRow>, last: DetailRow, t: Tree)
    requires WellIndexed(t)
    requires last.questionId.Some? && last.questionId.value in t.index
    requires Faithful(prefix, t)
    ensures AddRow(t, last).Ok?
    ensures Faithful(prefix + [last], AddRow(t, last).value)
  {
    var rows := prefix + [last];
    var q := last.questionId.value;
    var k0 := t.index[q];
    var t' := AddRow(t, last).value;
    assert t'.questions == t.questions[k0 := WithOption(t.questions[k0], last)];
    forall k | 0 <= k < |t'.questions|
      ensures MatchesRows(rows, t'.questions[k])
      ensures FirstRow(rows, t'.questions[k].id) == FirstRow(prefix, t.questions[k].id)
    {
      var id := t.questions[k].id;
      assert t'.questions[k].id == id;
      FirstRowSnoc(prefix, last, id);
      OptionsForSnoc(prefix, last, id);
      if k != k0 {
        assert id != q;
      }
    }
  }

  /** The first row of a new question appends that question, with the row's option if any. */
  lemma StepNewQuestion(prefix: seq<DetailRow>, last: DetailRow, t: Tree)
    requires WellIndexed(t)
    requires forall q :: q in t.index <==> HasQuestion(prefix, q)
    requires last.questionId.Some? && last.questionId.value !in t.index
    requires AddRow(t, last).Ok?
    requires Faithful(prefix, t)
    ensures Faithful(prefix + [last], AddRow(t, last).value)
  {
    var rows := prefix + [last];
    var q := last.questionId.value;
    var t' := AddRow(t, last).value;
    var n := |t.questions|;
    assert t'.questions[..n] == t.questions;
    forall k | 0 <= k < n
      ensures MatchesRows(rows, t'.questions[k])
      ensures FirstRow(rows, t'.questions[k].id) == FirstRow(prefix, t.questions[k].id) < |prefix|
    {
      var id := t.questions[k].id;
      assert t'.questions[k] == t.questions[k];
      assert id != q;
      FirstRowSnoc(prefix, last, id);
      OptionsForSnoc(prefix, last, id);
    }
    FirstRowNew(prefix, last, q);
    OptionsForSnoc(prefix, last, q);
    OptionsForAbsent(prefix, q);
    assert rows[|prefix|] == last;
    assert MatchesRows(rows, t'.questions[n]);
  }

  /** One fold step keeps the tree faithful to the rows read so far. */
  lemma StepIsFaithful(prefix: seq<DetailRow>, last: DetailRow, t: Tree)
    requires WellIndexed(t)
    requires forall q :: q in t.index <==> HasQuestion(prefix, q)
    requires AddRow(t, last).Ok?
    requires Faithful(prefix, t)
    ensures Faithful(prefix + [last], AddRow(t, last).value)
  {
    if last.questionId.None? {
      StepWithoutQuestion(prefix, last, t);
    } else if last.questionId.value in t.index {
      StepKnownQuestion(prefix, last, t);
    } else {
      StepNewQuestion(prefix, last, t);
    }
  }

  /** The fold builds exactly what the reference definitions describe. */
  lemma {:induction false} AssembleIsFaithful(rows: seq<DetailRow>)
    requires Assemble(rows).Ok?
    ensures Faithful(rows, Assemble(rows).value)
    decreases |rows|
  {
    if |rows| == 0 {
      assert Assemble(rows).value.questions == [];
    } else {
      var prefix, last := rows[..|rows| - 1], rows[|rows| - 1];
      assert rows == prefix + [last];
      assert Assemble(prefix).Ok?;
      AssembleIsFaithful(prefix);
      FaithfulAfterRow(rows, prefix, last);
    }
  }

  lemma FaithfulAfterRow(rows: seq<DetailRow>, prefix: seq<DetailRow>, last: DetailRow)
    requires rows == prefix + [last]
    requires Assemble(rows).Ok? && Assemble(prefix).Ok?
    requires Faithful(prefix, Assemble(prefix).value)
    ensures Faithful(rows, Assemble(rows).value)
  {
    assert rows[..|rows| - 1] == prefix;
    var t := Assemble(prefix).value;
    assert Assemble(rows) == AddRow(t, last);
    StepIsFaithful(prefix, last, t);
  }

  /** `getExamResponseById`, given what the detail query returned. */
  function GetExamResponseById(source: Fetch<seq<DetailRow>>): (r: ExamLookup)
    ensures source.SqlFailure? ==> r == NotFound
    ensures source.Fetched? && |source.rows| == 0 ==> r == NotFound
    ensures r.Found? <==> source.Fetched? && |source.rows| > 0 && AllTypesParse(source.rows)
    // the exam header is read from the first row only
    ensures r.Found? ==> var first := source.rows[0];
              r.exam.id == first.examId && r.exam.title == first.title
              && r.exam.description == first.description && r.exam.durationMinutes == first.durationMinutes
  {
    match source
    case SqlFailure => NotFound
    case Fetched(rows) =>
      if |rows| == 0 then NotFound
      else
        match Assemble(rows)
        case Err(UnknownName) => NotFound
        case Err(NullName) => NullTypeThrown
        case Ok(t) => Found(ExamDto(rows[0].examId, rows[0].title, rows[0].description, rows[0].durationMinutes, t.questions))
  }

  /** The exam a summary row stands for, with no questions. */
  function Summary(row: SummaryRow): ExamDto {
    ExamDto(row.examId, row.title, row.description, row.durationMinutes, [])
  }

  /** `getAllExams`: one exam per row, in order, with an empty question list; nothing on a storage failure. */
  function GetAllExams(source: Fetch<seq<SummaryRow>>): (exams: seq<ExamDto>)
    ensures source.SqlFailure? ==> exams == []
    ensures source.Fetched? ==> |exams| == |source.rows|
    ensures source.Fetched? ==> forall i :: 0 <= i < |exams| ==>
              var row := source.rows[i];
              exams[i].id == row.examId && exams[i].title == row.title && exams[i].description == row.description
              && exams[i].durationMinutes == row.durationMinutes && exams[i].questions == []
  {
    match source
    case SqlFailure => []
    case Fetched(rows) => seq(|rows|, i requires 0 <= i < |rows| => Summary(rows[i]))
  }

  // ----- Properties of getExamResponseById and getAllExams -----

  /**
    A found exam holds one question per distinct non-null question id, in
    order of first appearance; each question's id, exam id, text and type come
    from its first row, and its options are exactly its rows' non-null options
    in row order.
   */
  lemma FoundExamMatchesRows(rows: seq<DetailRow>)
    requires GetExamResponseById(Fetched(rows)).Found?
    ensures var qs := GetExamResponseById(Fetched(rows)).exam.questions;
      && (forall k :: 0 <= k < |qs| ==> MatchesRows(rows, qs[k]))
      && (forall k, l :: 0 <= k < l < |qs| ==> FirstRow(rows, qs[k].id) < FirstRow(rows, qs[l].id))
      && (forall q :: HasQuestion(rows, q) <==> exists k :: 0 <= k < |qs| && qs[k].id == q)
      && (forall k, l :: 0 <= k < l < |qs| ==> qs[k].id != qs[l].id)
  {
    var t := Assemble(rows).value;
    AssembleIsFaithful(rows);
    forall q | HasQuestion(rows, q) ensures exists k :: 0 <= k < |t.questions| && t.questions[k].id == q {
      assert t.questions[t.index[q]].id == q;
    }
  }

  lemma TotalOptionsSnoc(qs: seq<QuestionDto>, q: QuestionDto)
    ensures TotalOptions(qs + [q]) == TotalOptions(qs) + |q.options|
  {
    assert (qs + [q])[..|qs|] == qs;
  }

  /** Replacing one question changes the option total by the change in its option count. */
  lemma {:induction false} TotalOptionsUpdate(qs: seq<QuestionDto>, k: int, q: QuestionDto)
    requires 0 <= k < |qs|
    ensures TotalOptions(qs[k := q]) + |qs[k].options| == TotalOptions(qs) + |q.options|
    decreases |qs|
  {
    var n := |qs| - 1;
    var updated := qs[k := q];
    if k == n {
      assert updated[..n] == qs[..n];
    } else {
      assert updated[..n] == qs[..n][k := q];
      TotalOptionsUpdate(qs[..n], k, q);
    }
  }

  lemma CountOptionRowsSnoc(prefix: seq<DetailRow>, last: DetailRow)
    ensures CountOptionRows(prefix + [last])
         == CountOptionRows(prefix) + (if last.questionId.Some? && last.optionId.Some? then 1 else 0)
  {
    assert (prefix + [last])[..|prefix|] == prefix;
  }

  /** Every row with both a question id and an option id contributes exactly one option to the tree. */
  lemma {:induction false} AssembledOptionCount(rows: seq<DetailRow>)
    requires Assemble(rows).Ok?
    ensures TotalOptions(Assemble(rows).value.questions) == CountOptionRows(rows)
    decreases |rows|
  {
    if |rows| == 0 {
      assert Assemble(rows).value.questions == [];
    } else {
      var prefix, last := rows[..|rows| - 1], rows[|rows| - 1];
      assert rows == prefix + [last];
      assert Assemble(prefix).Ok?;
      AssembledOptionCount(prefix);
      var t := Assemble(prefix).value;
      assert Assemble(rows) == AddRow(t, last);
      CountOptionRowsSnoc(prefix, last);
      match last.questionId
      case None =>
      case Some(q) =>
        if q in t.index {
          var k := t.index[q];
          TotalOptionsUpdate(t.questions, k, WithOption(t.questions[k], last));
        } else {
          var created := QuestionDto(q, last.examId, last.questionText, ValueOf(last.questionType).value, []);
          TotalOptionsSnoc(t.questions, WithOption(created, last));
        }
    }
  }

  /** The options of a found exam number exactly the rows carrying both a question id and an option id. */
  lemma FoundOptionCount(rows: seq<DetailRow>)
    requires GetExamResponseById(Fetched(rows)).Found?
    ensures TotalOptions(GetExamResponseById(Fetched(rows)).exam.questions) == CountOptionRows(rows)
  {
    AssembledOptionCount(rows);
  }

  /**
    The first question whose type name does not parse stops the fold with that
    failure, whatever follows it.
   */
  lemma {:induction false} AssembleStopsAtFirstBadType(rows: seq<DetailRow>, i: int)
    requires IsFirst(rows, i) && ValueOf(rows[i].questionType).Err?
    requires forall j :: 0 <= j < i && IsFirst(rows, j) ==> ValueOf(rows[j].questionType).Ok?
    ensures Assemble(rows) == Err(ValueOf(rows[i].questionType).error)
    decreases |rows|
  {
    var prefix, last := rows[..|rows| - 1], rows[|rows| - 1];
    assert rows == prefix + [last];
    SnocFacts(prefix, last);
    if i < |prefix| {
      AssembleStopsAtFirstBadType(prefix, i);
    } else {
      assert AllTypesParse(prefix) by {
        forall j | 0 <= j < |prefix| && IsFirst(prefix, j) ensures ValueOf(prefix[j].questionType).Ok? {
          assert IsFirst(rows, j);
        }
      }
      var t := Assemble(prefix).value;
      assert last.questionId.value !in t.index;
    }
  }

  /**
    An unknown type name on a question's first row turns the whole answer into
    `null`, the same value as "not found"; a NULL type name escapes as an exception.
   */
  lemma BadTypeOutcome(rows: seq<DetailRow>, i: int)
    requires IsFirst(rows, i) && ValueOf(rows[i].questionType).Err?
    requires forall j :: 0 <= j < i && IsFirst(rows, j) ==> ValueOf(rows[j].questionType).Ok?
    ensures rows[i].questionType.Some? ==> GetExamResponseById(Fetched(rows)) == NotFound
    ensures rows[i].questionType.None? ==> GetExamResponseById(Fetched(rows)) == NullTypeThrown
  {
    AssembleStopsAtFirstBadType(rows, i);
  }

  lemma AssembleSnoc(prefix: seq<DetailRow>, last: DetailRow)
    ensures Assemble(prefix + [last]) == match Assemble(prefix) case Err(f) => Err(f) case Ok(t) => AddRow(t, last)
  {
    assert (prefix + [last])[..|prefix|] == prefix;
  }

  /** Removing a row without a question id, other than the first row, does not change the fold. */
  lemma {:induction false} NullQuestionRowIsInert(before: seq<DetailRow>, row: DetailRow, after: seq<DetailRow>)
    requires row.questionId.None?
    ensures Assemble(before + [row] + after) == Assemble(before + after)
    decreases |after|
  {
    if |after| == 0 {
      assert before + [row] + after == before + [row];
      assert before + after == before;
      AssembleSnoc(before, row);
    } else {
      var after', last := after[..|after| - 1], after[|after| - 1];
      assert before + [row] + after == (before + [row] + after') + [last];
      assert before + after == (before + after') + [last];
      NullQuestionRowIsInert(before, row, after');
      AssembleSnoc(before + [row] + after', last);
      AssembleSnoc(before + after', last);
    }
  }

  /** After the first row, a row without a question id changes nothing in the answer. */
  lemma NullQuestionRowIsSkipped(before: seq<DetailRow>, row: DetailRow, after: seq<DetailRow>)
    requires |before| > 0 && row.questionId.None?
    ensures GetExamResponseById(Fetched(before + [row] + after)) == GetExamResponseById(Fetched(before + after))
  {
    NullQuestionRowIsInert(before, row, after);
    assert (before + [row] + after)[0] == before[0] == (before + after)[0];
  }

  /** A question none of whose rows carries an option id gets an empty option list. */
  lemma {:induction false} OptionsForWithoutOptionRows(rows: seq<DetailRow>, q: int)
    requires forall i :: 0 <= i < |rows| && rows[i].questionId == Some(q) ==> rows[i].optionId.None?
    ensures OptionsFor(rows, q) == []
    decreases |rows|
  {
    if |rows| > 0 {
      var prefix := rows[..|rows| - 1];
      assert forall i :: 0 <= i < |prefix| ==> prefix[i] == rows[i];
      OptionsForWithoutOptionRows(prefix, q);
    }
  }

  /** Rows that carry no question id leave the fold at its empty start. */
  lemma {:induction false} AssembleWithoutQuestions(rows: seq<DetailRow>)
    requires forall i :: 0 <= i < |rows| ==> rows[i].questionId.None?
    ensures Assemble(rows) == Ok(Tree([], map[]))
    decreases |rows|
  {
    if |rows| > 0 {
      var prefix, last := rows[..|rows| - 1], rows[|rows| - 1];
      assert rows == prefix + [last];
      AssembleWithoutQuestions(prefix);
    }
  }

  /** Rows that carry no question id give the exam with an empty question list. */
  lemma ExamWithoutQuestions(rows: seq<DetailRow>)
    requires |rows| > 0
    requires forall i :: 0 <= i < |rows| ==> rows[i].questionId.None?
    ensures GetExamResponseById(Fetched(rows))
         == Found(ExamDto(rows[0].examId, rows[0].title, rows[0].description, rows[0].durationMinutes, []))
  {
    AssembleWithoutQuestions(rows);
  }

  /**
    An exam with no questions is reported by `getExamResponseById` exactly as
    `getAllExams` lists it.
   */
  lemma DetailAgreesWithSummary(row: DetailRow)
    requires row.questionId.None?
    ensures GetExamResponseById(Fetched([row]))
         == Found(GetAllExams(Fetched([SummaryRow(row.examId, row.title, row.description, row.durationMinutes)]))[0])
  {
    ExamWithoutQuestions([row]);
  }
}
