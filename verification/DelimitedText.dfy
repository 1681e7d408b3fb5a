/** `top_level_parts` on text with nested delimiters, as syntax. */
module DelimitedText {
  import opened Text
  import opened Attributes
  import opened CfgPredicate

  datatype Delimiter = Round | Square | Curly
  datatype Piece = Plain(c: char) | Group(delimiter: Delimiter, inside: seq<Piece>)

  function Opener(d: Delimiter): char
  {
    match d case Round => '(' case Square => '[' case Curly => '{'
  }

  function Closer(d: Delimiter): char
  {
    match d case Round => ')' case Square => ']' case Curly => '}'
  }

  function PieceText(p: Piece): string
    decreases p, 0
  {
    match p
    case Plain(c) => [c]
    case Group(d, inside) => [Opener(d)] + (PiecesText(inside) + [Closer(d)])
  }

  function PiecesText(ps: seq<Piece>): string
    decreases ps, 0
  {
    if ps == [] then "" else PieceText(ps[0]) + PiecesText(ps[1..])
  }

  /** No stray delimiter, and at the top no comma either. */
  predicate PieceOk(p: Piece, top: bool)
    decreases p, 0
  {
    match p
    case Plain(c) => c !in "()[]{}" && (top ==> c != ',')
    case Group(_, inside) => PiecesOk(inside, false)
  }

  predicate PiecesOk(ps: seq<Piece>, top: bool)
    decreases ps, 0
  {
    forall i :: 0 <= i < |ps| ==> PieceOk(ps[i], top)
  }

  lemma DelimitersNest(d: Delimiter)
    ensures Nesting(Opener(d)) == 1 && Nesting(Closer(d)) == -1 && Opener(d) != ',' && Closer(d) != ','
  {
    assert "([{"[0] == '(' && "([{"[1] == '[' && "([{"[2] == '{';
    assert ")]}"[0] == ')' && ")]}"[1] == ']' && ")]}"[2] == '}';
  }

  lemma OneChar(c: char, depth: int)
    requires depth == 0 ==> c != ','
    ensures NoTopComma([c], depth) && Net([c]) == Nesting(c)
  {
    assert [c][1..] == "";
  }

  lemma {:induction false} PieceIsClosed(p: Piece, depth: nat)
    requires PieceOk(p, depth == 0)
    ensures NoTopComma(PieceText(p), depth) && Net(PieceText(p)) == 0
    decreases p, 0
  {
    match p
    case Plain(c) => OneChar(c, depth);
    case Group(d, inside) =>
      var open, body, close := [Opener(d)], PiecesText(inside), [Closer(d)];
      DelimitersNest(d);
      OneChar(Opener(d), depth);
      OneChar(Closer(d), depth + 1);
      PiecesAreClosed(inside, depth + 1);
      NetConcat(body, close);
      NoTopCommaConcat(body, close, depth + 1);
      NetConcat(open, body + close);
      NoTopCommaConcat(open, body + close, depth);
  }

  lemma {:induction false} PiecesAreClosed(ps: seq<Piece>, depth: nat)
    requires PiecesOk(ps, depth == 0)
    ensures NoTopComma(PiecesText(ps), depth) && Net(PiecesText(ps)) == 0
    decreases ps, 0
  {
    if ps != [] {
      PieceIsClosed(ps[0], depth);
      PiecesAreClosed(ps[1..], depth);
      NetConcat(PieceText(ps[0]), PiecesText(ps[1..]));
      NoTopCommaConcat(PieceText(ps[0]), PiecesText(ps[1..]), depth);
    }
  }

  function PartTexts(parts: seq<seq<Piece>>): (texts: seq<string>)
    ensures |texts| == |parts| && forall i :: 0 <= i < |parts| ==> texts[i] == PiecesText(parts[i])
  {
    seq(|parts|, i requires 0 <= i < |parts| => PiecesText(parts[i]))
  }

  lemma {:induction false} ClosedAreSeparable(texts: seq<string>)
    requires texts != [] && forall i :: 0 <= i < |texts| ==> NoTopComma(texts[i], 0) && Net(texts[i]) == 0
    ensures Separable(texts)
    decreases |texts|
  {
    if |texts| > 1 { ClosedAreSeparable(texts[1..]); }
  }

  /** Parts with delimiters of all three kinds, nested to any depth, are split at
      exactly the commas between them. */
  lemma PartsAreSplit(parts: seq<seq<Piece>>)
    requires parts != [] && forall i :: 0 <= i < |parts| ==> PiecesOk(parts[i], true)
    ensures Split(Join(PartTexts(parts)), 0) == PartTexts(parts)
  {
    var texts := PartTexts(parts);
    forall i | 0 <= i < |texts| ensures NoTopComma(texts[i], 0) && Net(texts[i]) == 0 { PiecesAreClosed(parts[i], 0); }
    ClosedAreSeparable(texts);
    SplitJoin(texts);
  }
}
