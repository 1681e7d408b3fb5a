/** Functions that every configuration makes a test and the inventory does not
    list, because of how their attributes or their signature are written. */
module CutTests {
  import opened Text
  import opened Balanced
  import opened Attributes
  import opened CfgPredicate
  import opened DeclaresTest
  import opened AttributeBlocks
  import opened LostTests
  import opened AttributeLines
  import opened Signatures
  import opened AnnotatedTests

  /** `test` and, on the line below, another attribute. */
  function Under(test: Item, other: Item, head: Head, rest: string): Function
  {
    Function([Tagged([test], "", ""), Tagged([other], "", "")], Block([], ""), head, rest)
  }

  lemma UnderText(test: Item, other: Item, head: Head, rest: string)
    requires test.lead == "" && other.lead == ""
    ensures LinesText(Under(test, other, head, rest).lines) == ItemBody(test) + "\n" + (ItemBody(other) + "\n")
  {
    var lines := Under(test, other, head, rest).lines;
    assert lines[1..] == [lines[1]] && lines[1..][1..] == [];
    OneLine(test);
    OneLine(other);
    assert LinesText(lines[1..]) == LineText(lines[1]) + "\n" + "" == ItemBody(other) + "\n";
  }

  lemma OneLine(i: Item)
    requires i.lead == ""
    ensures LineText(Tagged([i], "", "")) == ItemBody(i)
  {
    OneItem(i);
    assert i.lead + ItemBody(i) + "" + "" == ItemBody(i);
  }

  lemma TestItem() returns (i: Item)
    ensures OnLine(i) && i.lead == "" && PlainTest(i.meta) && Permitted(i.meta) && ItemBody(i) == "#[test]"
  {
    var m := TestMeta();
    i := Item("", "", m, "");
    BareItem("", m);
    TestText(MetaText(m));
  }

  lemma TestText(t: string)
    requires t == "test"
    ensures "#[" + t + "]" == "#[test]" && Enclosed("#[test]") && '#' !in t
  {
    ClosesLast("test");
    assert "#[test]"[2..] == "test" + "]";
  }

  /** In every configuration. */
  ghost predicate Permitted(m: Meta)
  {
    forall on :: Permits(m, on)
  }

  lemma {:induction false} ClosesLast(t: string)
    requires '[' !in t && ']' !in t
    ensures CloseAt(t + "]", '[', ']', 1) == Some(|t|)
    decreases |t|
  {
    if t == "" {
      assert t + "]" == "]";
    } else {
      assert t[0] in t;
      assert (t + "]")[1..] == t[1..] + "]";
      ClosesLast(t[1..]);
    }
  }

  lemma ValuesMeta() returns (m: Meta)
    ensures MetaOk(m, true) && m.Named? && m.path.last != "test" && MetaText(m) == "values([1])"
  {
    var path := ValuesPath();
    m := Meta.Named(path, "", "([1])");
    ListTail();
    ValuesSpelled(PathText(path));
  }

  lemma ValuesPath() returns (path: Path)
    ensures PathOk(path, true) && path.last != "test" && path.last != CFG && path.last != CFG_ATTR && PathText(path) == "values"
  {
    path := Path(false, "", [], "values");
    assert "" + ("" + "values") == "values";
  }

  lemma ValuesSpelled(t: string)
    requires t == "values"
    ensures t + ("" + "([1])") == "values([1])"
  {}

  /** `values([1])`. */
  lemma ValuesItem() returns (i: Item)
    ensures OnLine(i) && i.lead == "" && !Simple(i) && Permitted(i.meta) && !SeenMeta(i.meta) && ItemBody(i) == "#[values([1])]"
  {
    var m := ValuesMeta();
    i := Item("", "", m, "");
    ValuesText(MetaText(m));
    ValuesClose(MetaText(m));
    AroundText(MetaText(m));
    BareItem("", m);
  }

  lemma ValuesText(t: string)
    requires t == "values([1])"
    ensures "#[" + t + "]" == "#[values([1])]" && '#' !in t && '\n' !in t && ']' in t
  {
    assert t[9] == ']';
  }

  lemma AroundText(t: string)
    requires t != "" && '\n' !in t && CloseAt(t + "]", '[', ']', 1) == Some(|t|)
    ensures var b := "#[" + t + "]"; Enclosed(b) && b[2..|b| - 1] == t
  {
    hide CloseAt;
    var b := ['#', '['] + (t + [']']);
    assert "#[" + t + "]" == b && t + "]" == t + [']'];
    assert b[2..] == t + [']'] && b[2..|b| - 1] == t;
    forall k | 0 <= k < |b| ensures b[k] != '\n' {
      if 2 <= k < |b| - 1 { assert b[k] == t[k - 2]; }
    }
  }

  lemma ValuesClose(t: string)
    requires t == "values([1])"
    ensures CloseAt(t + "]", '[', ']', 1) == Some(|t|)
  {
    var w := Group(Plain('1', Empty), Plain(')', Empty));
    assert Print(w, '[', ']') == "[1])";
    var v := WordBefore("values(", w);
    ValuesParts(t);
    ScanRecoversWord(v, '[', ']', "");
    assert t + "]" + "" == t + "]";
  }

  lemma ValuesParts(t: string)
    requires t == "values([1])"
    ensures "values(" + "[1])" == t
  {}

  lemma {:induction false} WordBefore(t: string, w: Word) returns (v: Word)
    requires '[' !in t && ']' !in t && PlainOnly(w, '[', ']')
    ensures PlainOnly(v, '[', ']') && Print(v, '[', ']') == t + Print(w, '[', ']')
    decreases |t|
  {
    if t == "" {
      v := w;
    } else {
      assert t[0] in t;
      var rest := WordBefore(t[1..], w);
      v := Plain(t[0], rest);
    }
  }

  lemma ListTail()
    ensures TailOk("([1])")
  {
    ListIsBalanced();
    ListIsClosed();
    assert "(" + "[1]" + ")" == "([1])";
    ParenthesizedIsClosed("[1]");
  }

  lemma ListIsBalanced()
    ensures ParenBalanced("([1])")
  {
    var inner := Plain('[', Plain('1', Plain(']', Empty)));
    var w := Group(inner, Empty);
    assert Print(inner, '(', ')') == "[1]";
    assert Print(w, '(', ')') == "([1])";
  }

  lemma ListIsClosed()
    ensures Closed("[1]", 1)
  {
    assert "[1]"[1..] == "1]" && "1]"[1..] == "]" && "]"[1..] == "";
    forall d | d >= 1 ensures NoTopComma("[1]", d) {
      assert NoTopComma("", d) && NoTopComma("]", d + 1) && NoTopComma("1]", d + 1);
    }
  }

  lemma UnderItems(test: Item, other: Item, head: Head, rest: string)
    ensures var items := Annotations(Under(test, other, head, rest)).items;
            |items| == 2 && items[0].meta == test.meta && items[1].meta == other.meta
  {
    var f := Under(test, other, head, rest);
    var lower := Attach(f.lines[1], f.inline);
    assert f.lines[1..] == [f.lines[1]] && f.lines[1..][1..] == [];
    assert Whole(f.lines[1..], f.inline) == lower && lower.items == [other];
    assert Annotations(f) == Attach(f.lines[0], lower);
  }

  lemma UnderIsTest(test: Item, other: Item, head: Head, rest: string)
    requires PlainTest(test.meta) && Permitted(test.meta) && Permitted(other.meta)
    ensures forall on :: IsTest(Annotations(Under(test, other, head, rest)), on)
  {
    var b := Annotations(Under(test, other, head, rest));
    UnderItems(test, other, head, rest);
    forall on: set<string> ensures IsTest(b, on) { assert Emits(b.items[0].meta, on); }
  }

  /** A test with an attribute below that is not simple is not collected. */
  lemma UnderIsNotSeen(test: Item, other: Item, head: Head, rest: string)
    requires !Simple(other) && !SeenMeta(other.meta)
    ensures !SeenBelow(Under(test, other, head, rest))
  {
    var f := Under(test, other, head, rest);
    assert [other][0] == other;
    assert !AllSimple([other]) && !Seen(f.inline);
    assert !SeenLine(f.lines[1]);
  }

  /** `#[test]` above `#[values([1])]`, on any function, is a test in every configuration and is not listed. */
  lemma CutTestIsLost(top: string, head: Head, rest: string, isIdentifier: string -> bool) returns (f: Function)
    requires Above(top) && HeadOk(head)
    ensures FunctionOk(f) && (forall on :: IsTest(Annotations(f), on)) && !Listed(top, f, isIdentifier)
    ensures Code(top, f) == top + "#[test]\n#[values([1])]\n" + (HeadText(head) + rest)
  {
    var test := TestItem();
    var other := ValuesItem();
    f := Under(test, other, head, rest);
    UnderIsOk(test, other, head, rest);
    UnderIsTest(test, other, head, rest);
    UnderIsNotSeen(test, other, head, rest);
    ListedExactly(top, f, isIdentifier);
    UnderText(test, other, head, rest);
    UnderCode(top, ItemBody(test), ItemBody(other), HeadText(head) + rest);
  }

  lemma LineOfOne(i: Item)
    requires OnLine(i)
    ensures LineOk(Tagged([i], "", ""))
  {
    forall k | 0 <= k < |[i]| ensures OnLine([i][k]) {}
  }

  lemma UnderIsOk(test: Item, other: Item, head: Head, rest: string)
    requires OnLine(test) && OnLine(other) && HeadOk(head)
    ensures FunctionOk(Under(test, other, head, rest))
  {
    LineOfOne(test);
    LineOfOne(other);
    LinesOfTwo(Tagged([test], "", ""), Tagged([other], "", ""));
  }

  lemma LinesOfTwo(l: Line, k: Line)
    requires LineOk(l) && LineOk(k)
    ensures LinesOk([l, k])
  {}

  lemma UnderCode(top: string, u: string, v: string, rest: string)
    requires u == "#[test]" && v == "#[values([1])]"
    ensures top + (u + "\n" + (v + "\n")) + ("" + "" + rest) == top + "#[test]\n#[values([1])]\n" + rest
  {
    assert "" + "" + rest == rest;
    assert u + "\n" + (v + "\n") == "#[test]\n#[values([1])]\n";
  }

  // ----- a signature that is not read -----

  /** `pub (crate) fn f(`. */
  function SpacedHead(): Head
  {
    Head(Restricted(" ", "crate", " "), [], " ", false, "f", "", "")
  }

  lemma SpacedText()
    ensures HeadText(SpacedHead()) == "pub (crate) fn f("
  {
    var h := SpacedHead();
    assert VisibilityText(h.visibility) == "pub" + (" " + ("(" + ("crate" + (")" + " ")))) == "pub (crate) ";
    assert FnText(h) == "fn" + (" " + ("" + ("f" + ("" + ("" + "("))))) == "fn f(";
    assert "pub (crate) " + ("" + "fn f(") == "pub (crate) fn f(";
  }

  /** `test` above a function with that signature. */
  function Spaced(test: Item, rest: string): Function
  {
    Function([Tagged([test], "", "")], Block([], ""), SpacedHead(), rest)
  }

  /** `#[test]` above `pub (crate) fn f(` is a test in every configuration and is not listed. */
  lemma SpacedTestIsLost(top: string, rest: string, isIdentifier: string -> bool) returns (f: Function)
    requires Above(top)
    ensures FunctionOk(f) && (forall on :: IsTest(Annotations(f), on)) && !Listed(top, f, isIdentifier)
    ensures Code(top, f) == top + "#[test]\n" + ("pub (crate) fn f(" + rest)
  {
    var test := TestItem();
    f := Spaced(test, rest);
    SpacedIsOk(test, rest);
    SpacedIsTest(test, rest);
    ListedExactly(top, f, isIdentifier);
    OneLine(test);
    SpacedText();
    SpacedCode(top, f, ItemBody(test), "pub (crate) fn f(");
  }

  lemma SpacedIsOk(test: Item, rest: string)
    requires OnLine(test)
    ensures FunctionOk(Spaced(test, rest)) && !Readable(SpacedHead())
  {
    LineOfOne(test);
  }

  lemma SpacedIsTest(test: Item, rest: string)
    requires PlainTest(test.meta) && Permitted(test.meta)
    ensures forall on :: IsTest(Annotations(Spaced(test, rest)), on)
  {
    var f := Spaced(test, rest);
    assert f.lines[1..] == [];
    assert Whole(f.lines[1..], f.inline) == f.inline;
    var items := Annotations(f).items;
    assert items == [test] + [];
    forall on: set<string> ensures IsTest(Annotations(f), on) { assert Emits(items[0].meta, on); }
  }

  lemma SpacedCode(top: string, f: Function, u: string, head: string)
    requires |f.lines| == 1 && LineText(f.lines[0]) == u == "#[test]" && f.inline == Block([], "") && HeadText(f.head) == head
    ensures Code(top, f) == top + "#[test]\n" + (head + f.rest)
  {
    assert f.lines[1..] == [];
    assert LinesText(f.lines) == u + "\n" + "" == "#[test]\n";
    assert BlockText(f.inline) == "" + "" == "";
    assert "" + (head + f.rest) == head + f.rest;
  }
}
