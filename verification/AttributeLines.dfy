/** Lines of attributes as syntax, and how `definitions` reads them: a line is
    passed exactly if no attribute on it has an inner `]`. */
module AttributeLines {
  import opened Text
  import opened Balanced
  import opened DeclaresTest
  import opened AttributeBlocks
  import opened Definitions

  // ----- syntax -----

  /** A line above a function, without its newline: blanks, or attributes. */
  datatype Line = Space(blank: string) | Tagged(items: seq<Item>, trail: string, endings: string)

  function LineText(l: Line): string
  {
    match l
    case Space(blank) => blank
    case Tagged(items, trail, endings) => ItemsText(items) + trail + endings
  }

  function LinesText(lines: seq<Line>): string
  {
    if lines == [] then "" else LineText(lines[0]) + "\n" + LinesText(lines[1..])
  }

  /** The bracket that opens an attribute is closed by its last character, as
      `flatten_attributes` counts brackets; its text then has no newline. */
  predicate Enclosed(body: string)
  {
    '\n' !in body && |body| >= 3 && CloseAt(body[2..], '[', ']', 1) == Some(|body| - 3)
  }

  /** An attribute on a line. */
  ghost predicate OnLine(i: Item)
  {
    ItemOk(i) && AllInline(i.lead) && Enclosed(ItemBody(i))
  }

  ghost predicate OnLines(items: seq<Item>)
  {
    forall i :: 0 <= i < |items| ==> OnLine(items[i])
  }

  predicate AllReturns(t: string)
  {
    forall i :: 0 <= i < |t| ==> t[i] == '\r'
  }

  ghost predicate LineOk(l: Line)
  {
    match l
    case Space(blank) => Blank(blank) && '\n' !in blank
    case Tagged(items, trail, endings) => items != [] && OnLines(items) && AllInline(trail) && AllReturns(endings)
  }

  ghost predicate LinesOk(lines: seq<Line>)
  {
    forall i :: 0 <= i < |lines| ==> LineOk(lines[i])
  }

  /** The attributes on the line of the function, and the blanks before its signature. */
  ghost predicate InlineOk(b: Block)
  {
    OnLines(b.items) && AllInline(b.trail)
  }

  /** Text above the attributes: nothing, or lines of which the last is neither
      blank nor attributes only. */
  predicate Above(top: string)
  {
    top != "" ==> top[|top| - 1] == '\n' && !Passable(top[LineStart(top[..|top| - 1])..|top| - 1])
  }

  // ----- depth of square brackets -----

  lemma {:induction false} DepthConcat(u: string, v: string)
    ensures Depth(u + v, '[', ']') == Depth(u, '[', ']') + Depth(v, '[', ']')
    decreases |u|
  {
    if u == "" {
      assert u + v == v;
    } else {
      assert (u + v)[1..] == u[1..] + v;
      DepthConcat(u[1..], v);
    }
  }

  lemma {:induction false} DepthInline(t: string)
    requires AllInline(t)
    ensures Depth(t, '[', ']') == 0
    decreases |t|
  {
    if t != "" { DepthInline(t[1..]); }
  }

  lemma {:induction false} DepthWithoutClosers(t: string)
    requires ']' !in t
    ensures Depth(t, '[', ']') >= 0 && (Depth(t, '[', ']') == 0 ==> '[' !in t)
    decreases |t|
  {
    if t != "" {
      assert t[0] in t;
      DepthWithoutClosers(t[1..]);
    }
  }

  /** The brackets of an attribute are balanced. */
  lemma DepthOfBody(b: string)
    requires Enclosed(b) && StartsPair(b, '#', '[')
    ensures Depth(b, '[', ']') == 0
  {
    var t := b[2..];
    CloseAtIsLeast(t, '[', ']', 1);
    assert t[..|t|] == t;
    assert b == "#[" + t;
    DepthConcat("#[", t);
    assert "#["[1..] == "[" && "["[1..] == "";
  }

  // ----- one attribute, as the expression reads it -----

  /** No `]` but the last. */
  predicate SimpleText(b: string)
    requires |b| >= 3
  {
    ']' !in b[2..|b| - 1]
  }

  predicate Simple(i: Item)
  {
    SimpleText(ItemBody(i))
  }

  predicate AllSimple(items: seq<Item>)
  {
    forall i :: 0 <= i < |items| ==> Simple(items[i])
  }

  lemma {:induction false} FindSplits(t: string, c: char)
    requires c in t
    ensures var r := Find(t, [c]); r.Some? && r.value < |t| && c !in t[..r.value] && t[r.value] == c
    decreases |t|
  {
    if t[0] == c {
      assert t[..1] == [c] && Starts(t, [c]);
    } else {
      assert !Starts(t, [c]) by { assert t[..1][0] == t[0]; }
      assert c in t[1..] by { var k :| 0 <= k < |t| && t[k] == c; assert t[1..][k - 1] == c; }
      FindSplits(t[1..], c);
      var k := Find(t[1..], [c]).value;
      assert t[..k + 1] == [t[0]] + t[1..][..k];
    }
  }

  /** A simple attribute is read as a whole, with the blanks after it. */
  lemma SimpleIsRead(b: string, t: string)
    requires |b| >= 3 && StartsPair(b, '#', '[') && b[|b| - 1] == ']' && ']' !in b[2..|b| - 1]
    ensures OneAttribute(b + t) == |b| + InlineLen(t)
  {
    var u, x := b + t, b[2..|b| - 1];
    assert u[2..] == x + [']'] + t;
    FindCharAt(x, ']', t);
    assert u[|b|..] == t;
  }

  lemma DepthOfRead(x: string, blanks: string)
    requires ']' !in x && AllInline(blanks)
    ensures Depth("#[" + (x + ("]" + blanks)), '[', ']') == Depth(x, '[', ']') >= 0
  {
    DepthConcat("#[", x + ("]" + blanks));
    DepthConcat(x, "]" + blanks);
    DepthConcat("]", blanks);
    DepthInline(blanks);
    DepthWithoutClosers(x);
    assert "#["[1..] == "[" && "["[1..] == "" && "]"[1..] == "";
  }

  lemma FoundBracket(t: string, k: nat)
    requires Find(t, "]") == Some(k)
    ensures k < |t| && ']' !in t[..k] && t[k] == ']'
  {
    StartsFirst(t[k..], "]");
    assert t[k..][0] == t[k];
    FindSplits(t, ']');
  }

  lemma ReadSlices(t: string, k: nat, n: nat)
    requires StartsPair(t, '#', '[') && k + 3 <= n <= |t| && t[k + 2] == ']'
    ensures t[..n] == "#[" + (t[2..k + 2] + ("]" + t[k + 3..n]))
    ensures t[2..k + 2] == t[2..][..k] && t[k + 3..n] == t[k + 3..][..n - k - 3]
  {}

  /** What is read of an attribute is `#[`, text without `]`, `]`, blanks. */
  lemma ReadDepth(t: string, k: nat)
    requires StartsPair(t, '#', '[') && Find(t[2..], "]") == Some(k)
    ensures k + 3 <= OneAttribute(t) <= |t| && ']' !in t[2..k + 2]
    ensures Depth(t[..OneAttribute(t)], '[', ']') == Depth(t[2..k + 2], '[', ']') >= 0
  {
    var n := OneAttribute(t);
    FoundBracket(t[2..], k);
    ReadSlices(t, k, n);
    InlineSlice(t[k + 3..]);
    DepthOfRead(t[2..k + 2], t[k + 3..n]);
  }

  lemma {:induction false} InlineSlice(t: string)
    ensures AllInline(t[..InlineLen(t)])
    decreases |t|
  {
    if t != "" && Inline(t[0]) {
      InlineSlice(t[1..]);
      assert t[..InlineLen(t)] == [t[0]] + t[1..][..InlineLen(t[1..])];
    }
  }

  lemma OneDepth(t: string)
    requires OneAttribute(t) > 0
    ensures Depth(t[..OneAttribute(t)], '[', ']') >= 0
  {
    ReadDepth(t, Find(t[2..], "]").value);
  }

  lemma DepthOfTwo(t: string, n: nat, m: nat)
    requires n + m <= |t|
    ensures Depth(t[..n + m], '[', ']') == Depth(t[..n], '[', ']') + Depth(t[n..][..m], '[', ']')
  {
    assert t[..n + m] == t[..n] + t[n..][..m];
    DepthConcat(t[..n], t[n..][..m]);
  }

  lemma RunUnfolds(t: string) returns (n: nat, m: nat)
    requires OneAttribute(t) > 0
    ensures n == OneAttribute(t) && m == AttributeRun(t[n..]) && AttributeRun(t) == n + m <= |t|
  {
    n := OneAttribute(t);
    m := AttributeRun(t[n..]);
  }

  lemma {:induction false} RunDepth(t: string)
    ensures Depth(t[..AttributeRun(t)], '[', ']') >= 0
    decreases |t|
  {
    if OneAttribute(t) == 0 {
      assert t[..0] == "";
    } else {
      var n, m := RunUnfolds(t);
      RunDepth(t[n..]);
      OneDepth(t);
      DepthOfTwo(t, n, m);
    }
  }

  lemma CutText(b: string, t: string, k: nat)
    requires |b| >= 3 && k < |b| - 3 && b[2..|b| - 1][k] == ']'
    ensures var x := b[2..|b| - 1];
            && (b + t)[2..] == x[..k] + [']'] + (x[k + 1..] + (b[|b| - 1..] + t))
            && (b + t)[2..k + 2] == x[..k] == b[2..][..k] && b[2..][k] == ']'
  {}

  /** Of an attribute with an inner `]` only a part is read, with an open bracket too many. */
  lemma NestedIsCut(b: string, t: string)
    requires Enclosed(b) && StartsPair(b, '#', '[') && ']' in b[2..|b| - 1]
    ensures 0 < OneAttribute(b + t) && Depth((b + t)[..OneAttribute(b + t)], '[', ']') >= 1
  {
    var x := b[2..|b| - 1];
    FindSplits(x, ']');
    var k := Find(x, "]").value;
    CutText(b, t, k);
    FindCharAt(x[..k], ']', x[k + 1..] + (b[|b| - 1..] + t));
    ReadDepth(b + t, k);
    OpensFirst(b, k);
  }

  lemma OpensFirst(b: string, k: nat)
    requires Enclosed(b) && k < |b| - 3 && ']' !in b[2..][..k] && b[2..][k] == ']'
    ensures Depth(b[2..][..k], '[', ']') >= 1
  {
    var t := b[2..];
    DepthWithoutClosers(t[..k]);
    assert t[..k + 1] == t[..k] + "]";
    DepthConcat(t[..k], "]");
    assert "]"[1..] == "";
    CloseAtIsLeast(t, '[', ']', 1);
    assert !Closes(t, '[', ']', 1, k);
  }

  // ----- a line of attributes, as the expression reads it -----

  lemma BodyEnds(i: Item)
    ensures var b := ItemBody(i); |b| >= 3 && StartsPair(b, '#', '[') && b[|b| - 1] == ']'
  {}

  /** The text of an attribute and what stands before it. */
  datatype Piece = Piece(lead: string, body: string)

  predicate PieceOk(p: Piece)
  {
    AllInline(p.lead) && Enclosed(p.body) && StartsPair(p.body, '#', '[') && p.body[|p.body| - 1] == ']'
  }

  predicate PiecesOk(ps: seq<Piece>)
  {
    forall k :: 0 <= k < |ps| ==> PieceOk(ps[k])
  }

  predicate SimplePieces(ps: seq<Piece>)
    requires PiecesOk(ps)
  {
    forall k :: 0 <= k < |ps| ==> SimpleText(ps[k].body)
  }

  function PiecesText(ps: seq<Piece>): string
  {
    if ps == [] then "" else ps[0].lead + ps[0].body + PiecesText(ps[1..])
  }

  function Pieces(items: seq<Item>): (ps: seq<Piece>)
    ensures |ps| == |items| && forall k :: 0 <= k < |items| ==> ps[k] == Piece(items[k].lead, ItemBody(items[k]))
  {
    seq(|items|, k requires 0 <= k < |items| => Piece(items[k].lead, ItemBody(items[k])))
  }

  lemma {:induction false} TextOfPieces(items: seq<Item>)
    ensures PiecesText(Pieces(items)) == ItemsText(items)
    decreases |items|
  {
    if items != [] {
      assert Pieces(items)[1..] == Pieces(items[1..]);
      TextOfPieces(items[1..]);
    }
  }

  lemma PiecesOfLine(items: seq<Item>)
    requires OnLines(items)
    ensures PiecesOk(Pieces(items)) && (SimplePieces(Pieces(items)) <==> AllSimple(items))
  {
    var ps := Pieces(items);
    forall k | 0 <= k < |ps| ensures PieceOk(ps[k]) {
      assert OnLine(items[k]);
      BodyEnds(items[k]);
    }
    if SimplePieces(ps) {
      forall k | 0 <= k < |items| ensures Simple(items[k]) { assert SimpleText(ps[k].body); }
    }
    if AllSimple(items) {
      forall k | 0 <= k < |ps| ensures SimpleText(ps[k].body) { assert Simple(items[k]); }
    }
  }

  lemma {:induction false} PiecesDepth(ps: seq<Piece>, trail: string)
    requires PiecesOk(ps) && AllInline(trail)
    ensures Depth(PiecesText(ps) + trail, '[', ']') == 0
    decreases |ps|
  {
    if ps == [] {
      assert "" + trail == trail;
      DepthInline(trail);
    } else {
      assert PieceOk(ps[0]);
      PiecesDepth(ps[1..], trail);
      DepthOfPiece(ps[0].lead, ps[0].body, PiecesText(ps[1..]), trail);
    }
  }

  lemma DepthOfPiece(lead: string, b: string, rest: string, trail: string)
    requires AllInline(lead) && Enclosed(b) && StartsPair(b, '#', '[') && Depth(rest + trail, '[', ']') == 0
    ensures Depth(lead + b + rest + trail, '[', ']') == 0
  {
    DepthOfBody(b);
    DepthInline(lead);
    Assoc(lead + b, rest, trail);
    DepthConcat(lead + b, rest + trail);
    DepthConcat(lead, b);
  }

  /** Text neither blank nor an attribute, or nothing. */
  predicate Other(t: string)
  {
    t != "" ==> !Inline(t[0]) && t[0] != '#'
  }

  lemma {:induction false} ReadPieces(ps: seq<Piece>, trail: string, follow: string)
    requires PiecesOk(ps) && AllInline(trail) && Other(follow)
    ensures ReadLen(PiecesText(ps) + trail + follow) == |PiecesText(ps) + trail| <==> SimplePieces(ps)
    decreases |ps|
  {
    if ps == [] {
      ReadTrail(trail, follow);
    } else {
      assert PieceOk(ps[0]);
      ReadPieces(ps[1..], trail, follow);
      PiecesDepth(ps[1..], trail);
      ReadFirst(ps[0].lead, ps[0].body, PiecesText(ps[1..]), trail, follow, SimplePieces(ps[1..]));
      SimpleCons(ps);
    }
  }

  /** All the attributes of a line are read exactly if all are simple. */
  lemma ReadExactly(items: seq<Item>, trail: string, follow: string)
    requires OnLines(items) && AllInline(trail) && Other(follow)
    ensures ReadLen(ItemsText(items) + trail + follow) == |ItemsText(items) + trail| <==> AllSimple(items)
  {
    TextOfPieces(items);
    PiecesOfLine(items);
    ReadPieces(Pieces(items), trail, follow);
  }

  lemma ReadFirst(lead: string, b: string, rest: string, trail: string, follow: string, simple: bool)
    requires AllInline(lead) && Enclosed(b) && StartsPair(b, '#', '[') && b[|b| - 1] == ']'
    requires Depth(rest + trail, '[', ']') == 0 && (ReadLen(rest + trail + follow) == |rest + trail| <==> simple)
    ensures ReadLen(lead + b + rest + trail + follow) == |lead + b + rest + trail| <==> SimpleText(b) && simple
  {
    Assoc(lead + b, rest, trail);
    ReadBody(lead, b, rest + trail, follow);
  }

  lemma SimpleCons(ps: seq<Piece>)
    requires ps != [] && PiecesOk(ps)
    ensures SimplePieces(ps) <==> SimpleText(ps[0].body) && SimplePieces(ps[1..])
  {
    if SimpleText(ps[0].body) && SimplePieces(ps[1..]) {
      forall k | 0 <= k < |ps| ensures SimpleText(ps[k].body) { if k > 0 { assert ps[1..][k - 1] == ps[k]; } }
    }
  }

  lemma ReadTrail(trail: string, follow: string)
    requires AllInline(trail) && Other(follow)
    ensures ReadLen("" + trail + follow) == |"" + trail|
  {
    assert "" + trail + follow == trail + follow;
    InlineLenAt(trail, follow);
    assert (trail + follow)[|trail|..] == follow;
  }

  lemma ReadBody(lead: string, b: string, rest: string, follow: string)
    requires AllInline(lead) && Enclosed(b) && StartsPair(b, '#', '[') && b[|b| - 1] == ']' && Depth(rest, '[', ']') == 0
    ensures ReadLen(lead + b + rest + follow) == |lead + b + rest|
       <==> ']' !in b[2..|b| - 1] && ReadLen(rest + follow) == |rest|
  {
    ReadLead(lead, b, rest, follow);
    if ']' !in b[2..|b| - 1] { ReadSimple(b, rest, follow); } else { ReadNested(b, rest, follow); }
  }

  lemma ReadLead(lead: string, b: string, rest: string, follow: string)
    requires AllInline(lead) && b != "" && b[0] == '#'
    ensures ReadLen(lead + b + rest + follow) == |lead| + AttributeRun(b + (rest + follow))
    ensures |lead + b + rest| == |lead| + |b| + |rest|
  {
    var u := b + (rest + follow);
    ItemText(lead, b, rest, follow);
    InlineLenAt(lead, u);
  }

  lemma ItemText(lead: string, b: string, rest: string, follow: string)
    ensures lead + b + rest + follow == lead + (b + (rest + follow)) && (lead + (b + (rest + follow)))[|lead|..] == b + (rest + follow)
  {}

  lemma ReadSimple(b: string, rest: string, follow: string)
    requires |b| >= 3 && StartsPair(b, '#', '[') && b[|b| - 1] == ']' && ']' !in b[2..|b| - 1]
    ensures AttributeRun(b + (rest + follow)) == |b| + ReadLen(rest + follow)
  {
    var t := rest + follow;
    SimpleIsRead(b, t);
    assert (b + t)[|b| + InlineLen(t)..] == t[InlineLen(t)..];
  }

  lemma TakeFront(b: string, rest: string, follow: string)
    ensures (b + (rest + follow))[..|b| + |rest|] == b + rest
  {}

  /** If what is read first has a bracket too many, what is read is no balanced text. */
  lemma ReadsOther(u: string, n: nat)
    requires n <= |u| && Depth(u[..n], '[', ']') == 0
    requires OneAttribute(u) > 0 && Depth(u[..OneAttribute(u)], '[', ']') >= 1
    ensures AttributeRun(u) != n
  {
    var first, more := RunUnfolds(u);
    RunDepth(u[first..]);
    DepthOfTwo(u, first, more);
  }

  lemma ReadNested(b: string, rest: string, follow: string)
    requires Enclosed(b) && StartsPair(b, '#', '[') && ']' in b[2..|b| - 1] && Depth(rest, '[', ']') == 0
    ensures AttributeRun(b + (rest + follow)) != |b| + |rest|
  {
    NestedIsCut(b, rest + follow);
    DepthOfBody(b);
    DepthConcat(b, rest);
    TakeFront(b, rest, follow);
    ReadsOther(b + (rest + follow), |b| + |rest|);
  }

  // ----- which lines are passed -----

  predicate SimpleLine(l: Line)
  {
    l.Space? || AllSimple(l.items)
  }

  lemma {:induction false} ReturnsStripped(t: string, endings: string)
    requires AllReturns(endings) && (t != "" ==> t[|t| - 1] != '\r')
    ensures RStripReturns(t + endings) == t
    decreases |endings|
  {
    if endings == "" {
      assert t + endings == t;
    } else {
      var n := |endings| - 1;
      assert (t + endings)[..|t + endings| - 1] == t + endings[..n];
      ReturnsStripped(t, endings[..n]);
    }
  }

  lemma {:induction false} BlankStaysBlank(t: string)
    requires Blank(t)
    ensures Blank(RStripReturns(t))
    decreases |t|
  {
    if t != "" && t[|t| - 1] == '\r' { BlankStaysBlank(t[..|t| - 1]); }
  }

  lemma FirstOfItems(lead: string, b: string, rest: string)
    requires AllInline(lead) && b != "" && b[0] == '#'
    ensures var t := lead + b + rest; InlineLen(t) < |t| && t[InlineLen(t)] == '#' && !Blank(t)
  {
    assert lead + b + rest == lead + (b + rest);
    InlineLenAt(lead, b + rest);
  }

  /** The start and the end of a line of attributes. */
  lemma ItemsEnds(items: seq<Item>, trail: string)
    requires items != [] && OnLines(items) && AllInline(trail)
    ensures var t := ItemsText(items) + trail;
            && InlineLen(t) < |t| && t[InlineLen(t)] == '#' && !Blank(t) && t[|t| - 1] != '\r'
  {
    var i := items[0];
    assert OnLine(i);
    BodyEnds(i);
    FirstOfItems(i.lead, ItemBody(i), ItemsText(items[1..]) + trail);
    Assoc(i.lead + ItemBody(i), ItemsText(items[1..]), trail);
    LastOfItems(items, trail);
  }

  lemma {:induction false} LastOfItems(items: seq<Item>, trail: string)
    requires items != [] && AllInline(trail)
    ensures var t := ItemsText(items) + trail; t != "" && (t[|t| - 1] == ']' || Inline(t[|t| - 1]))
    decreases |items|
  {
    var i := items[0];
    BodyEnds(i);
    if |items| == 1 {
      assert items[1..] == [];
    } else {
      LastOfItems(items[1..], trail);
    }
    LastOf(i.lead + ItemBody(i), ItemsText(items[1..]), trail);
  }

  lemma LastOf(u: string, v: string, w: string)
    ensures v + w != "" ==> (u + v + w)[|u + v + w| - 1] == (v + w)[|v + w| - 1]
    ensures v + w == "" ==> u + v + w == u
  {}

  /** The walk passes a line exactly if its attributes are all simple. */
  lemma PassesExactly(l: Line)
    requires LineOk(l)
    ensures Passable(LineText(l)) <==> SimpleLine(l)
  {
    match l
    case Space(blank) => BlankStaysBlank(blank);
    case Tagged(items, trail, endings) =>
      var t := ItemsText(items) + trail;
      ItemsEnds(items, trail);
      ReturnsStripped(t, endings);
      assert t + "" == t;
      ReadExactly(items, trail, "");
  }
}
