/**
  The `QuestionType` enumeration: two constants whose `name()` strings are
  "CLASSIC" and "MULTIPLE_CHOICE". `valueOf` accepts exactly those names,
  fails with `IllegalArgumentException` on any other string and with
  `NullPointerException` on `null`.
 */
module QuestionTypes {
  import opened Common

  datatype QuestionType = Classic | MultipleChoice

  /** Why `valueOf` did not produce a constant. */
  datatype ParseFault = UnknownName | NullName

  /** `QuestionType.name()`. */
  function Name(t: QuestionType): string {
    match t
    case Classic => "CLASSIC"
    case MultipleChoice => "MULTIPLE_CHOICE"
  }

  /** `QuestionType.valueOf(s)`, with `None` standing for `null`. */
  function ValueOf(s: Option<string>): (r: Result<QuestionType, ParseFault>)
    ensures r.Ok? ==> s == Some(Name(r.value))
    ensures r == Err(NullName) <==> s.None?
    ensures r == Err(UnknownName) <==> s.Some? && forall t: QuestionType :: Name(t) != s.value
  {
    match s
    case None => Err(NullName)
    case Some(n) =>
      if n == "CLASSIC" then Ok(Classic)
      else if n == "MULTIPLE_CHOICE" then Ok(MultipleChoice)
      else Err(UnknownName)
  }

  /** Parsing a constant's own name gives that constant back. */
  lemma ValueOfName(t: QuestionType)
    ensures ValueOf(Some(Name(t))) == Ok(t)
  {
  }
}
