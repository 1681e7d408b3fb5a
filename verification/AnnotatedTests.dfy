/** `definitions` and `_annotated_tests` on functions as syntax: lines of
    attributes, attributes on the line of the function, its signature. Exactly
    which attributes are collected, and which functions are listed. */
module AnnotatedTests {
  import opened Text
  import opened DeclaresTest
  import opened AttributeBlocks
  import opened BlockScan
  import opened BlockTheorems
  import opened AttributeLines
  import opened Definitions
  import opened Signatures

  // ----- the lines collected -----

  /** How many lines the walk leaves out, from the first one on. */
  function Cut(lines: seq<Line>): (c: nat)
    ensures c <= |lines|
  {
    if lines == [] then 0 else
    var n := |lines| - 1;
    if SimpleLine(lines[n]) then Cut(lines[..n]) else |lines|
  }

  lemma {:induction false} LinesSnoc(lines: seq<Line>, l: Line)
    ensures LinesText(lines + [l]) == LinesText(lines) + (LineText(l) + "\n")
    decreases |lines|
  {
    if lines == [] {
      assert lines + [l] == [l] && [l][1..] == [];
      assert LineText(l) + "\n" + "" == "" + (LineText(l) + "\n");
    } else {
      assert (lines + [l])[1..] == lines[1..] + [l];
      LinesSnoc(lines[1..], l);
      Assoc(LineText(lines[0]) + "\n", LinesText(lines[1..]), LineText(l) + "\n");
    }
  }

  lemma {:induction false} ItemsHaveNoNewline(items: seq<Item>)
    requires OnLines(items)
    ensures '\n' !in ItemsText(items)
    decreases |items|
  {
    if items != [] {
      assert OnLine(items[0]);
      ItemsHaveNoNewline(items[1..]);
      WithoutNewline(items[0].lead, ItemBody(items[0]), ItemsText(items[1..]));
    }
  }

  lemma WithoutNewline(u: string, v: string, w: string)
    requires '\n' !in u && '\n' !in v && '\n' !in w
    ensures '\n' !in u + v + w
  {}

  lemma LineHasNoNewline(l: Line)
    requires LineOk(l)
    ensures '\n' !in LineText(l)
  {
    if l.Tagged? {
      ItemsHaveNoNewline(l.items);
      WithoutNewline(ItemsText(l.items), l.trail, l.endings);
    }
  }

  lemma LinesEndAtLineStart(top: string, lines: seq<Line>)
    requires AtLineStart(top)
    ensures AtLineStart(top + LinesText(lines))
  {
    if lines == [] {
      assert top + "" == top;
    } else {
      var n := |lines| - 1;
      assert lines[..n] + [lines[n]] == lines;
      LinesSnoc(lines[..n], lines[n]);
      EndsInNewline(top, LinesText(lines[..n]), LineText(lines[n]), LinesText(lines));
    }
  }

  lemma EndsInNewline(top: string, u: string, v: string, t: string)
    requires t == u + (v + "\n")
    ensures AtLineStart(top + t)
  {
    assert t[|t| - 1] == '\n';
  }

  /** The walk collects exactly the lines below the last one it cannot pass. */
  lemma {:induction false} WalkCollects(top: string, lines: seq<Line>)
    requires Above(top) && LinesOk(lines)
    ensures var above := top + LinesText(lines);
            above[Walk(above)..] == LinesText(lines[Cut(lines)..])
    decreases |lines|
  {
    if lines == [] {
      assert top + "" == top;
      WalkStops(top);
    } else {
      var n := |lines| - 1;
      var front, l := lines[..n], lines[n];
      assert lines == front + [l];
      LinesSnoc(front, l);
      WalkCollects(top, front);
      Assoc(top, LinesText(front), LineText(l) + "\n");
      LinesEndAtLineStart(top, front);
      LineHasNoNewline(l);
      WalkLine(top + LinesText(front), LineText(l));
      PassesExactly(l);
      CollectOne(top + LinesText(front), lines, n);
    }
  }

  lemma WalkStops(top: string)
    requires Above(top)
    ensures Walk(top) == |top|
  {
    if top != "" { WalkUnfolds(top, |top| - 1, LineStart(top[..|top| - 1])); }
  }

  lemma CollectOne(t: string, lines: seq<Line>, n: nat)
    requires |lines| == n + 1 && t[Walk(t)..] == LinesText(lines[..n][Cut(lines[..n])..])
    requires var above := t + (LineText(lines[n]) + "\n");
             Walk(above) == if SimpleLine(lines[n]) then Walk(t) else |above|
    ensures var above := t + (LineText(lines[n]) + "\n");
            above[Walk(above)..] == LinesText(lines[Cut(lines)..])
  {
    if SimpleLine(lines[n]) {
      TakeOne(t, Walk(t), lines, Cut(lines), n);
    } else {
      assert lines[Cut(lines)..] == [];
    }
  }

  lemma TakeOne(t: string, w: nat, lines: seq<Line>, c: nat, n: nat)
    requires w <= |t| && c <= n && |lines| == n + 1 && t[w..] == LinesText(lines[..n][c..])
    ensures (t + (LineText(lines[n]) + "\n"))[w..] == LinesText(lines[c..])
  {
    assert lines[c..] == lines[..n][c..] + [lines[n]];
    LinesSnoc(lines[..n][c..], lines[n]);
    DropBoth(t, LineText(lines[n]) + "\n", w);
  }

  lemma DropBoth(t: string, u: string, w: nat)
    requires w <= |t|
    ensures (t + u)[w..] == t[w..] + u
  {}

  // ----- the block of a function -----

  /** A block with text in front. */
  function Led(t: string, b: Block): Block
  {
    if b.items == [] then Block([], t + b.trail)
    else Block([b.items[0].(lead := t + b.items[0].lead)] + b.items[1..], b.trail)
  }

  function Attach(l: Line, b: Block): Block
  {
    match l
    case Space(blank) => Led(blank + "\n", b)
    case Tagged(items, trail, endings) =>
      var c := Led(trail + endings + "\n", b);
      Block(items + c.items, c.trail)
  }

  /** The block written on the lines and, last, on the line of the function. */
  function Whole(lines: seq<Line>, inline: Block): Block
  {
    if lines == [] then inline else Attach(lines[0], Whole(lines[1..], inline))
  }

  lemma LedText(t: string, b: Block)
    ensures BlockText(Led(t, b)) == t + BlockText(b)
  {
    if b.items == [] {
      assert ItemsText([]) + (t + b.trail) == t + ("" + b.trail);
    } else {
      var i := b.items[0];
      var j := i.(lead := t + i.lead);
      assert ([j] + b.items[1..])[1..] == b.items[1..];
      assert ItemBody(j) == ItemBody(i);
      LedAssoc(t, i.lead, ItemBody(i), ItemsText(b.items[1..]), b.trail);
    }
  }

  lemma LedAssoc(t: string, u: string, v: string, w: string, x: string)
    ensures t + u + v + w + x == t + (u + v + w + x)
  {}

  lemma {:induction false} ItemsConcat(a: seq<Item>, b: seq<Item>)
    ensures ItemsText(a + b) == ItemsText(a) + ItemsText(b)
    decreases |a|
  {
    if a == [] {
      assert a + b == b;
    } else {
      assert (a + b)[1..] == a[1..] + b;
      ItemsConcat(a[1..], b);
      Assoc(a[0].lead + ItemBody(a[0]), ItemsText(a[1..]), ItemsText(b));
    }
  }

  lemma AttachText(l: Line, b: Block)
    ensures BlockText(Attach(l, b)) == LineText(l) + "\n" + BlockText(b)
  {
    match l
    case Space(blank) => LedText(blank + "\n", b);
    case Tagged(items, trail, endings) =>
      var t := trail + endings + "\n";
      var c := Led(t, b);
      LedText(t, b);
      ItemsConcat(items, c.items);
      Assoc(ItemsText(items), ItemsText(c.items), c.trail);
      AttachAssoc(ItemsText(items), trail, endings, BlockText(b));
  }

  lemma AttachAssoc(u: string, v: string, w: string, x: string)
    ensures u + (v + w + "\n" + x) == u + v + w + "\n" + x
  {}

  lemma {:induction false} WholeText(lines: seq<Line>, inline: Block)
    ensures BlockText(Whole(lines, inline)) == LinesText(lines) + BlockText(inline)
    decreases |lines|
  {
    if lines == [] {
      assert "" + BlockText(inline) == BlockText(inline);
    } else {
      WholeText(lines[1..], inline);
      AttachText(lines[0], Whole(lines[1..], inline));
      Assoc(LineText(lines[0]) + "\n", LinesText(lines[1..]), BlockText(inline));
    }
  }

  lemma LedOk(t: string, b: Block)
    requires '#' !in t && BlockOk(b)
    ensures BlockOk(Led(t, b))
  {
    var c := Led(t, b);
    forall k | 0 <= k < |c.items| ensures ItemOk(c.items[k]) {
      assert ItemOk(b.items[k]) && ItemBody(c.items[k]) == ItemBody(b.items[k]);
    }
  }

  lemma InlineIsOk(b: Block)
    requires InlineOk(b)
    ensures BlockOk(b)
  {
    forall k | 0 <= k < |b.items| ensures ItemOk(b.items[k]) { assert OnLine(b.items[k]); }
  }

  lemma {:induction false} WholeOk(lines: seq<Line>, inline: Block)
    requires LinesOk(lines) && InlineOk(inline)
    ensures BlockOk(Whole(lines, inline))
    decreases |lines|
  {
    if lines == [] {
      InlineIsOk(inline);
    } else {
      WholeOk(lines[1..], inline);
      AttachOk(lines[0], Whole(lines[1..], inline));
    }
  }

  lemma AttachOk(l: Line, b: Block)
    requires LineOk(l) && BlockOk(b)
    ensures BlockOk(Attach(l, b))
  {
    match l
    case Space(blank) => LedOk(blank + "\n", b);
    case Tagged(items, trail, endings) =>
      var c := Led(trail + endings + "\n", b);
      LedOk(trail + endings + "\n", b);
      var all := items + c.items;
      forall k | 0 <= k < |all| ensures ItemOk(all[k]) {
        if k < |items| { assert OnLine(items[k]); } else { assert all[k] == c.items[k - |items|]; }
      }
  }

  // ----- what is seen of it -----

  predicate SeenMeta(m: Meta)
  {
    PlainTest(m) || SeenConditional(m)
  }

  predicate SeenIn(items: seq<Item>)
  {
    exists i :: 0 <= i < |items| && SeenMeta(items[i].meta)
  }

  /** The line holds a test the scan sees. */
  predicate SeenLine(l: Line)
  {
    l.Tagged? && SeenIn(l.items)
  }

  lemma SeenConcat(a: seq<Item>, b: seq<Item>)
    ensures SeenIn(a + b) <==> SeenIn(a) || SeenIn(b)
  {
    if i :| 0 <= i < |a| && SeenMeta(a[i].meta) { assert (a + b)[i] == a[i]; }
    if i :| 0 <= i < |b| && SeenMeta(b[i].meta) { assert (a + b)[|a| + i] == b[i]; }
    if i :| 0 <= i < |a + b| && SeenMeta((a + b)[i].meta) {
      if i < |a| { assert (a + b)[i] == a[i]; } else { assert (a + b)[i] == b[i - |a|]; }
    }
  }

  lemma SeenLed(t: string, b: Block)
    ensures Seen(Led(t, b)) <==> Seen(b)
  {
    var c := Led(t, b);
    assert |c.items| == |b.items| && forall k :: 0 <= k < |b.items| ==> c.items[k].meta == b.items[k].meta;
  }

  lemma SeenAttach(l: Line, b: Block)
    ensures Seen(Attach(l, b)) <==> SeenLine(l) || Seen(b)
  {
    match l
    case Space(blank) => SeenLed(blank + "\n", b);
    case Tagged(items, trail, endings) =>
      SeenLed(trail + endings + "\n", b);
      SeenConcat(items, Led(trail + endings + "\n", b).items);
  }

  lemma {:induction false} SeenWhole(lines: seq<Line>, inline: Block)
    ensures Seen(Whole(lines, inline)) <==> Seen(inline) || exists k :: 0 <= k < |lines| && SeenLine(lines[k])
    decreases |lines|
  {
    if lines != [] {
      var rest := lines[1..];
      SeenWhole(rest, inline);
      SeenAttach(lines[0], Whole(rest, inline));
      if k :| 0 <= k < |rest| && SeenLine(rest[k]) { assert lines[k + 1] == rest[k]; }
      if k :| 0 <= k < |lines| && SeenLine(lines[k]) { if k > 0 { assert rest[k - 1] == lines[k]; } }
    }
  }

  // ----- functions -----

  /** A function: the lines of attributes above it, those on its own line, its
      signature up to the parenthesis, and the text after it. */
  datatype Function = Function(lines: seq<Line>, inline: Block, head: Head, rest: string)

  ghost predicate FunctionOk(f: Function)
  {
    LinesOk(f.lines) && InlineOk(f.inline) && HeadOk(f.head)
  }

  /** The text from the signature on. */
  function Declaration(f: Function): string
  {
    HeadText(f.head) + f.rest
  }

  function Code(top: string, f: Function): string
  {
    top + LinesText(f.lines) + (BlockText(f.inline) + Declaration(f))
  }

  /** Where the line of the function starts. */
  function Start(top: string, f: Function): (s: nat)
    ensures s <= |Code(top, f)|
  {
    |top + LinesText(f.lines)|
  }

  /** The search finds the function at its line, with all the attributes there and its name. */
  predicate Recognised(top: string, f: Function)
  {
    var m := MatchAt(Code(top, f), Start(top, f));
    m.Some? && m.value.inlineEnd == Start(top, f) + |BlockText(f.inline)| && m.value.name == f.head.name
  }

  /** It is found, and it counts as a test. */
  predicate Listed(top: string, f: Function, isIdentifier: string -> bool)
  {
    Recognised(top, f)
    && IsTestDefinition(DefinitionOf(Code(top, f), MatchAt(Code(top, f), Start(top, f)).value), isIdentifier)
  }

  /** A function is recognised exactly if the attributes on its line are all
      simple and its signature is one the pattern reads; the match then ends at
      its parenthesis. */
  lemma RecognisedExactly(top: string, f: Function)
    requires Above(top) && FunctionOk(f)
    ensures Recognised(top, f) <==> AllSimple(f.inline.items) && Readable(f.head)
    ensures Recognised(top, f) ==>
      MatchAt(Code(top, f), Start(top, f)).value.end == Start(top, f) + |BlockText(f.inline)| + |HeadText(f.head)|
  {
    hide MatchAt, ReadLen, Signature, LinesText, ItemsText, HeadText, Readable, AllSimple, HeadOk;
    LinesEndAtLineStart(top, f.lines);
    MatchLine(top + LinesText(f.lines), BlockText(f.inline), Declaration(f));
    HeadStarts(f.head, f.rest);
    SignatureExactly(f.head, f.rest);
    ReadExactly(f.inline.items, f.inline.trail, Declaration(f));
  }

  /** The attributes collected for a function. */
  function Collected(f: Function): Block
  {
    Whole(f.lines[Cut(f.lines)..], f.inline)
  }

  /** All that is written above a function and on its line. */
  function Annotations(f: Function): Block
  {
    Whole(f.lines, f.inline)
  }

  lemma LineIn(above: string, line: string, rest: string)
    ensures var code := above + (line + rest); code[..|above|] == above && code[|above|..|above| + |line|] == line
  {}

  lemma TakeBoth(code: string, c: nat, s: nat, e: nat)
    requires c <= s <= e <= |code|
    ensures code[c..e] == code[..s][c..] + code[s..e]
  {}

  lemma DefinedText(code: string, above: string, line: string, m: Match)
    requires Within(code, m) && m.start == |above| && m.inlineEnd == |above| + |line|
    requires code[..m.start] == above && code[m.start..m.inlineEnd] == line
    ensures var d := DefinitionOf(code, m);
            && d.name == m.name && d.attributes + d.inline == above[Walk(above)..] + line
            && d.attributesStart == Walk(above) && d.inlineEnd == m.inlineEnd
  {
    DefinitionParts(code, m, above);
    TakeBoth(code, Walk(above), m.start, m.inlineEnd);
  }

  lemma CollectedText(top: string, f: Function)
    requires Above(top) && LinesOk(f.lines)
    ensures var above := top + LinesText(f.lines);
            above[Walk(above)..] + BlockText(f.inline) == BlockText(Collected(f))
  {
    WalkCollects(top, f.lines);
    WholeText(f.lines[Cut(f.lines)..], f.inline);
  }

  lemma DefinitionText(top: string, f: Function, m: Match)
    requires Within(Code(top, f), m) && m.start == Start(top, f) && m.inlineEnd == Start(top, f) + |BlockText(f.inline)|
    ensures var d, above := DefinitionOf(Code(top, f), m), top + LinesText(f.lines);
            && d.name == m.name && d.attributes + d.inline == above[Walk(above)..] + BlockText(f.inline)
            && d.attributesStart == Walk(above) && d.inlineEnd == m.inlineEnd
  {
    LineIn(top + LinesText(f.lines), BlockText(f.inline), Declaration(f));
    DefinedText(Code(top, f), top + LinesText(f.lines), BlockText(f.inline), m);
  }

  /** A recognised function gets exactly the text of the attributes on its line
      and on the lines below the last one that is not simple. */
  lemma CollectedExactly(top: string, f: Function)
    requires Above(top) && FunctionOk(f) && Recognised(top, f)
    ensures var d := DefinitionOf(Code(top, f), MatchAt(Code(top, f), Start(top, f)).value);
            && d.name == f.head.name && d.attributes + d.inline == BlockText(Collected(f))
            && d.inlineEnd == Start(top, f) + |BlockText(f.inline)| && d.attributesStart == d.inlineEnd - |BlockText(Collected(f))|
  {
    RecognisedExactly(top, f);
    DefinitionText(top, f, MatchAt(Code(top, f), Start(top, f)).value);
    CollectedText(top, f);
  }

  /** No line from `k` on holds an attribute with an inner `]`. */
  predicate SimpleFrom(lines: seq<Line>, k: nat)
  {
    forall j :: k <= j < |lines| ==> SimpleLine(lines[j])
  }

  lemma SimpleSnoc(lines: seq<Line>, n: nat, k: nat)
    requires |lines| == n + 1 && k <= n
    ensures SimpleFrom(lines, k) <==> SimpleFrom(lines[..n], k) && SimpleLine(lines[n])
  {
    forall j | k <= j < n ensures lines[..n][j] == lines[j] {}
    if SimpleFrom(lines[..n], k) && SimpleLine(lines[n]) {
      forall j | k <= j < |lines| ensures SimpleLine(lines[j]) { assert j < n ==> SimpleLine(lines[..n][j]); }
    }
  }

  lemma {:induction false} SimpleBelowCut(lines: seq<Line>, k: nat)
    requires k < |lines|
    ensures SimpleFrom(lines, k) <==> k >= Cut(lines)
    decreases |lines|
  {
    var n := |lines| - 1;
    SimpleSnoc(lines, n, k);
    if k < n { SimpleBelowCut(lines[..n], k); }
  }

  /** A test on the line of the function, or on a line with only simple attributes on and below it. */
  predicate SeenBelow(f: Function)
  {
    Seen(f.inline) || exists k :: 0 <= k < |f.lines| && SeenLine(f.lines[k]) && SimpleFrom(f.lines, k)
  }

  lemma SeenAfterCut(lines: seq<Line>, c: nat)
    requires c <= |lines| && forall k: nat :: k < |lines| ==> (SimpleFrom(lines, k) <==> k >= c)
    ensures (exists k :: 0 <= k < |lines[c..]| && SeenLine(lines[c..][k]))
       <==> exists k :: 0 <= k < |lines| && SeenLine(lines[k]) && SimpleFrom(lines, k)
  {
    var kept := lines[c..];
    if k :| 0 <= k < |kept| && SeenLine(kept[k]) { assert lines[c + k] == kept[k] && SimpleFrom(lines, c + k); }
    if k :| 0 <= k < |lines| && SeenLine(lines[k]) && SimpleFrom(lines, k) { assert kept[k - c] == lines[k]; }
  }

  lemma SeenCollected(f: Function)
    ensures Seen(Collected(f)) <==> SeenBelow(f)
  {
    var c := Cut(f.lines);
    forall k: nat | k < |f.lines| ensures SimpleFrom(f.lines, k) <==> k >= c { SimpleBelowCut(f.lines, k); }
    SeenWhole(f.lines[c..], f.inline);
    SeenAfterCut(f.lines, c);
  }

  lemma CollectedDeclares(f: Function)
    requires LinesOk(f.lines) && InlineOk(f.inline)
    ensures DeclaresATest(BlockText(Collected(f))) <==> SeenBelow(f)
  {
    WholeOk(f.lines[Cut(f.lines)..], f.inline);
    DeclaresBlock(Collected(f));
    SeenCollected(f);
  }

  lemma RecognisedIsListed(top: string, f: Function, isIdentifier: string -> bool)
    requires Above(top) && FunctionOk(f) && Recognised(top, f)
    ensures Listed(top, f, isIdentifier) <==> isIdentifier(f.head.name) && SeenBelow(f)
  {
    var d := DefinitionOf(Code(top, f), MatchAt(Code(top, f), Start(top, f)).value);
    CollectedExactly(top, f);
    CollectedDeclares(f);
    TestExactly(d, isIdentifier, BlockText(Collected(f)), SeenBelow(f));
  }

  /** No attribute on the line of the function has an inner `]`, and its signature is read. */
  predicate Found(f: Function)
  {
    AllSimple(f.inline.items) && Readable(f.head)
  }

  /** For every function: it is listed exactly if its name is an identifier, no
      attribute on its line has an inner `]`, its signature is one the pattern
      reads, and the scan sees a test on its line, or on a line above that no
      attribute with an inner `]` stands on or below. */
  lemma ListedExactly(top: string, f: Function, isIdentifier: string -> bool)
    requires Above(top) && FunctionOk(f)
    ensures Listed(top, f, isIdentifier) <==> isIdentifier(f.head.name) && Found(f) && SeenBelow(f)
  {
    RecognisedExactly(top, f);
    if Recognised(top, f) { RecognisedIsListed(top, f, isIdentifier); }
  }

  // ----- what the inventory makes of a function -----

  lemma SeenBelowIsSeen(f: Function)
    ensures SeenBelow(f) ==> Seen(Annotations(f))
    ensures SimpleFrom(f.lines, 0) ==> (Seen(Annotations(f)) <==> SeenBelow(f))
  {
    SeenWhole(f.lines, f.inline);
    if SimpleFrom(f.lines, 0) {
      forall k: nat | k < |f.lines| ensures SimpleFrom(f.lines, k) {}
    }
  }

  predicate SimpleFunction(f: Function)
  {
    Found(f) && SimpleFrom(f.lines, 0)
  }

  /** When no attribute has an inner `]`, a function with a signature that is
      read is listed exactly if the whole block of its attributes declares a test. */
  lemma SimpleFunctionIsItsBlock(top: string, f: Function, isIdentifier: string -> bool)
    requires Above(top) && FunctionOk(f) && SimpleFunction(f)
    ensures BlockOk(Annotations(f)) && BlockText(Annotations(f)) == LinesText(f.lines) + BlockText(f.inline)
    ensures Listed(top, f, isIdentifier) <==> isIdentifier(f.head.name) && DeclaresATest(BlockText(Annotations(f)))
  {
    ListedExactly(top, f, isIdentifier);
    SeenBelowIsSeen(f);
    WholeOk(f.lines, f.inline);
    WholeText(f.lines, f.inline);
    DeclaresBlock(Annotations(f));
  }

  /** A function is listed if and only if some configuration makes it a compiled
      test, exactly when: if the scan sees a test and collects it, the `cfg`s can
      hold; otherwise no attribute may make it a test, or its `cfg`s cannot hold. */
  lemma FunctionIsExact(top: string, f: Function, isIdentifier: string -> bool)
    requires Above(top) && FunctionOk(f) && isIdentifier(f.head.name) && Unmixed(Annotations(f))
    ensures (Listed(top, f, isIdentifier) <==> exists on :: IsTest(Annotations(f), on))
       <==> if Found(f) && SeenBelow(f) then Compilable(Annotations(f))
            else (!Seen(Annotations(f)) && !MayHide(Annotations(f))) || !Compilable(Annotations(f))
  {
    ListedExactly(top, f, isIdentifier);
    SeenBelowIsSeen(f);
    TestableExactly(Annotations(f));
  }

  /** A listed function is among the names of the text, unless an earlier match reaches past its start. */
  lemma ListedIsNamed(top: string, f: Function, isIdentifier: string -> bool)
    requires Above(top) && FunctionOk(f) && Listed(top, f, isIdentifier)
    requires forall m :: m in Matches(Code(top, f), 0) ==> !(m.start < Start(top, f) < m.end)
    ensures f.head.name in TestNames(Code(top, f), isIdentifier)
  {
    RecognisedExactly(top, f);
    var m := MatchAt(Code(top, f), Start(top, f)).value;
    FoundAt(Code(top, f), m);
    NamedAt(Code(top, f), m, d => IsTestDefinition(d, isIdentifier));
  }
}
