/** What `predicate_truth` answers on texts that are no `cfg` predicate. */
module MalformedPredicates {
  import opened Text
  import opened CfgPredicate
  import opened CfgTheorems

  /** `name (...`, closed by a parenthesis or not. */
  function CallText(kind: Kind, gap: string, inner: string, closed: bool): string
  {
    Name(kind) + (gap + ("(" + (inner + if closed then ")" else "")))
  }

  predicate CallTextOk(gap: string, inner: string, closed: bool)
  {
    Blank(gap) && (closed || inner == "" || (!IsSpace(inner[|inner| - 1]) && inner[|inner| - 1] != ')'))
  }

  lemma BodyOfCall(kind: Kind, gap: string, inner: string, closed: bool, other: Kind)
    requires CallTextOk(gap, inner, closed)
    ensures CallBody(CallText(kind, gap, inner, closed), other) == if other == kind then Some(inner) else None
  {
    var text, rest := CallText(kind, gap, inner, closed), "(" + (inner + if closed then ")" else "");
    assert text[3..] == gap + rest && text[..3] == Name(kind);
    assert text[0] == Name(kind)[0] && text[1] == Name(kind)[1];
    LStripBlank(gap, rest);
    assert closed ==> rest[1..|rest| - 1] == inner;
    assert !closed ==> rest[1..] == inner;
  }

  lemma CallIsTrimmed(kind: Kind, gap: string, inner: string, closed: bool)
    requires CallTextOk(gap, inner, closed)
    ensures var text := CallText(kind, gap, inner, closed); Trimmed(text) && text != "true" && text != "false"
  {
    var text := CallText(kind, gap, inner, closed);
    assert text[0] == Name(kind)[0] && text[1] == Name(kind)[1];
    assert text[|text| - 1] == if closed then ')' else if inner == "" then '(' else inner[|inner| - 1];
  }

  /** Whatever stands in the parentheses, balanced or not, and with or without the
      closing one, a call is answered by its arguments. */
  lemma CallIsItsArguments(before: string, kind: Kind, gap: string, inner: string, closed: bool, after: string)
    requires Blank(before) && CallTextOk(gap, inner, closed) && Blank(after)
    ensures PredicateTruth(before + CallText(kind, gap, inner, closed) + after) == CallTruth(kind, inner)
  {
    var text := CallText(kind, gap, inner, closed);
    CallIsTrimmed(kind, gap, inner, closed);
    StripSurrounded(before, text, after);
    BodyOfCall(kind, gap, inner, closed, All);
    BodyOfCall(kind, gap, inner, closed, Any);
    BodyOfCall(kind, gap, inner, closed, Not);
  }

  /** `not` of no argument, or of several, is unknown. */
  lemma NotOfOthersIsUnknown(before: string, gap: string, args: Args, after: string)
    requires Blank(before) && Blank(gap) && ArgsOk(args) && Blank(after) && Count(args) != 1
    ensures PredicateTruth(before + CallText(Not, gap, Join(SlotTexts(args)), true) + after) == Unknown
  {
    CallIsItsArguments(before, Not, gap, Join(SlotTexts(args)), true, after);
    CallTruthIsCombined(Not, args);
    ListsAgree(args);
  }
}
