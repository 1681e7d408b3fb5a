/** Blocks that every configuration makes a test and the inventory does not
    list, and one that it lists and no configuration compiles. */
module LostTests {
  import opened Text
  import opened Balanced
  import opened Attributes
  import opened CfgPredicate
  import opened CfgTheorems
  import opened DeclaresTest
  import opened AttributeBlocks
  import opened BlockScan
  import opened BlockTheorems

  /** `all()`. */
  const ALWAYS := Call(All, "", Last(Gap("")))

  function Bare(path: Path): Meta
  {
    Named(path, "", "")
  }

  /** `cfg_attr(all(), m)`. */
  function Always(m: Meta): Meta
  {
    Conditional("", "", ALWAYS, "", ALWAYS, [Attribute(" ", m, "")])
  }

  lemma AlwaysText(m: Meta)
    ensures MetaText(Always(m)) == "cfg_attr(all(), " + MetaText(m) + ")"
  {
    var e := [Attribute(" ", m, "")];
    assert e[1..] == [];
    assert EmittedTexts(e) == [" " + MetaText(m) + ""] + EmittedTexts([]);
    assert " " + MetaText(m) + "" == " " + MetaText(m);
    AlwaysShown();
    assert ArgumentTexts(Always(m)) == ["all()"] + [" " + MetaText(m)];
    JoinTwo("all()", " " + MetaText(m));
    AlwaysSpelled(MetaText(m));
  }

  lemma AlwaysShown()
    ensures Show(ALWAYS) == "all()" && "" + Show(ALWAYS) + "" == "all()" && Ok(ALWAYS) && SameShape(ALWAYS, ALWAYS)
    ensures Kleene(ALWAYS) == Yes
  {
    var args := Last(Gap(""));
    assert SlotTexts(args) == [""] && SlotOk(args.slot) && ArgsOk(args) && SameArgs(args, args);
  }

  lemma AlwaysSpelled(t: string)
    ensures "cfg_attr" + ("" + ("(" + ("all()" + "," + (" " + t)) + ")")) == "cfg_attr(all(), " + t + ")"
  {
    assert "(" + ("all()" + "," + (" " + t)) + ")" == "(all(), " + t + ")";
  }

  lemma AlwaysOk(m: Meta, inside: bool)
    requires MetaOk(m, false)
    ensures MetaOk(Always(m), inside)
  {
    AlwaysShown();
    assert EmittedOk(Attribute(" ", m, ""));
  }

  lemma AlwaysEmits(m: Meta, on: set<string>)
    requires Emits(m, on) && Permits(m, on)
    ensures Emits(Always(m), on) && Permits(Always(m), on)
  {
    AlwaysShown();
    KleeneIsSound(ALWAYS, on);
    assert Always(m).emitted[0].Attribute? && Emits(Always(m).emitted[0].meta, on);
  }

  lemma NamedOk(path: Path, inside: bool)
    requires PathOk(path, inside) && path.last != CFG_ATTR && path.last != CFG
    ensures MetaOk(Bare(path), inside)
  {
    assert Print(Empty, '(', ')') == "" && PlainOnly(Empty, '(', ')');
    assert TailOk("");
  }

  /** A block of one attribute. */
  function Alone(lead: string, m: Meta, trail: string): Block
  {
    Block([Item(lead, "", m, "")], trail)
  }

  lemma NoHashIsQuiet(t: string)
    requires '#' !in t
    ensures Quiet("#[" + t + "]")
  {
    var body := "#[" + t + "]";
    forall k | 1 <= k < |body| ensures CfgStart(body[k..]) == 0 && !TestAt(body[k..]) {
      assert 2 <= k < |body| - 1 ==> body[k] == t[k - 2];
      assert body[k..][0] == body[k] != '#';
    }
  }

  lemma AloneIs(lead: string, m: Meta, trail: string)
    requires MetaOk(m, true) && '#' !in MetaText(m) && '#' !in lead && '#' !in trail
    ensures BlockOk(Alone(lead, m, trail)) && BlockText(Alone(lead, m, trail)) == lead + ("#[" + MetaText(m) + "]") + trail
  {
    BareItem(lead, m);
    OneItem(Item(lead, "", m, ""));
  }

  lemma OneItem(i: Item)
    ensures ItemsText([i]) == i.lead + ItemBody(i)
  {
    assert [i][1..] == [] && ItemsText([]) == "";
    assert i.lead + ItemBody(i) + "" == i.lead + ItemBody(i);
  }

  lemma AloneIsTest(lead: string, m: Meta, trail: string, on: set<string>)
    requires Emits(m, on) && Permits(m, on)
    ensures IsTest(Alone(lead, m, trail), on)
  {
    assert Alone(lead, m, trail).items[0].meta == m;
  }

  /** A block that every configuration makes a test, and that is not listed. */
  ghost predicate Lost(b: Block)
  {
    BlockOk(b) && (forall on :: IsTest(b, on)) && !DeclaresATest(BlockText(b))
  }

  /** `cfg_attr(all(), cfg_attr(all(), m))`. */
  lemma NestedBlock(lead: string, m: Meta, trail: string) returns (b: Block)
    requires NamesTest(m) && MetaOk(m, false) && '#' !in MetaText(m) && '#' !in lead && '#' !in trail
    ensures Lost(b) && BlockText(b) == lead + ("#[" + MetaText(Always(Always(m))) + "]") + trail
  {
    var inner, outer := Always(m), Always(Always(m));
    AlwaysOk(m, false);
    AlwaysOk(inner, true);
    AlwaysText(m);
    AlwaysText(inner);
    NoHash("cfg_attr(all(), ", MetaText(m), ")");
    NoHash("cfg_attr(all(), ", MetaText(inner), ")");
    b := Alone(lead, outer, trail);
    AloneIs(lead, outer, trail);
    forall on: set<string> ensures IsTest(b, on) {
      AlwaysEmits(m, on);
      AlwaysEmits(inner, on);
      AloneIsTest(lead, outer, trail, on);
    }
    DeclaresBlock(b);
  }

  lemma NoHash(a: string, b: string, c: string)
    requires '#' !in a && '#' !in b && '#' !in c
    ensures '#' !in a + b + c
  {}

  /** An attribute with a rooted test path. */
  lemma RootedBlock(lead: string, path: Path, trail: string) returns (b: Block)
    requires PathOk(path, true) && path.rooted && path.last == "test" && '#' !in PathText(path)
    requires '#' !in lead && '#' !in trail
    ensures Lost(b) && BlockText(b) == lead + ("#[" + PathText(path) + "]") + trail
  {
    var m := Bare(path);
    NamedOk(path, true);
    assert MetaText(m) == PathText(path);
    b := Alone(lead, m, trail);
    AloneIs(lead, m, trail);
    forall on: set<string> ensures IsTest(b, on) { AloneIsTest(lead, m, trail, on); }
    DeclaresBlock(b);
  }

  /** A test under nested `cfg_attr`s is lost even when every predicate is constantly true. */
  lemma NestedTestIsLost(lead: string, trail: string) returns (b: Block)
    requires '#' !in lead && '#' !in trail
    ensures Lost(b) && BlockText(b) == lead + "#[cfg_attr(all(), cfg_attr(all(), test))]" + trail
  {
    var m := TestMeta();
    NestedText(m);
    b := NestedBlock(lead, m, trail);
  }

  lemma TestMeta() returns (m: Meta)
    ensures PlainTest(m) && MetaOk(m, false) && MetaOk(m, true) && MetaText(m) == "test"
  {
    m := Bare(Path(false, "", [], "test"));
    NamedOk(m.path, false);
    NamedOk(m.path, true);
  }

  lemma NestedText(m: Meta)
    requires MetaText(m) == "test"
    ensures "#[" + MetaText(Always(Always(m))) + "]" == "#[cfg_attr(all(), cfg_attr(all(), test))]"
  {
    var inner := Always(m);
    AlwaysText(m);
    AlwaysText(inner);
    NestedSpelled();
  }

  lemma NestedSpelled()
    ensures "#[" + ("cfg_attr(all(), " + ("cfg_attr(all(), " + "test" + ")") + ")") + "]" == "#[cfg_attr(all(), cfg_attr(all(), test))]"
  {}

  /** A test attribute with a rooted path is lost. */
  lemma RootedTestIsLost(lead: string, trail: string) returns (b: Block)
    requires '#' !in lead && '#' !in trail
    ensures Lost(b) && BlockText(b) == lead + "#[::tokio::test]" + trail
  {
    var path := RootedPath();
    b := RootedBlock(lead, path, trail);
    RootedText(path);
  }

  lemma RootedText(path: Path)
    requires PathText(path) == "::tokio::test"
    ensures "#[" + PathText(path) + "]" == "#[::tokio::test]"
  {}

  lemma RootedSpelled(t: string)
    requires t == "tokio::"
    ensures "::" + "" + (t + "test") == "::tokio::test" && '#' !in "::tokio::test"
  {}

  lemma RootedPath() returns (path: Path)
    ensures PathOk(path, true) && path.rooted && path.last == "test" && '#' !in PathText(path)
    ensures PathText(path) == "::tokio::test"
  {
    path := Path(true, "", [Segment("tokio", "", "")], "test");
    SegmentText("tokio");
    RootedSpelled(FrontText(path.front));
  }

  /** A test attribute with its arguments in braces is lost. */
  lemma BracedTestIsLost(lead: string, trail: string) returns (b: Block)
    requires '#' !in lead && '#' !in trail
    ensures Lost(b) && BlockText(b) == lead + "#[tokio::test{}]" + trail
  {
    var m := BracedMeta();
    b := Alone(lead, m, trail);
    AloneIs(lead, m, trail);
    forall on: set<string> ensures IsTest(b, on) { AloneIsTest(lead, m, trail, on); }
    DeclaresBlock(b);
    BracedText(m);
  }

  lemma BracedText(m: Meta)
    requires MetaText(m) == "tokio::test{}"
    ensures "#[" + MetaText(m) + "]" == "#[tokio::test{}]"
  {}

  lemma BracedMeta() returns (m: Meta)
    ensures OddTest(m) && MetaOk(m, true) && '#' !in MetaText(m) && MetaText(m) == "tokio::test{}"
  {
    var path := TokioPath();
    m := Named(path, "", "{}");
    BracesOk();
    BracedSpelled(PathText(path));
  }

  lemma BracedSpelled(t: string)
    requires t == "tokio::test"
    ensures t + ("" + "{}") == "tokio::test{}" && '#' !in t + ("" + "{}")
  {}

  lemma TokioPath() returns (path: Path)
    ensures PathOk(path, true) && !path.rooted && path.last == "test" && path.front != []
    ensures PathText(path) == "tokio::test"
  {
    path := Path(false, "", [Segment("tokio", "", "")], "test");
    SegmentText("tokio");
    assert "" + ("tokio::" + "test") == "tokio::test";
  }

  lemma BracesOk()
    ensures TailOk("{}")
  {
    var w := NoParenWord("{}");
    assert "{}"[1..] == "}" && "}"[1..] == "";
    forall d | d >= 0 ensures NoTopComma("{}", d) { assert NoTopComma("}", d + 1) && NoTopComma("", d); }
  }

  // ----- a test that is never compiled -----

  /** `any()`. */
  const NEVER := Call(Any, "", Last(Gap("")))

  /** `cfg(any())`. */
  function Absent(): Meta
  {
    Guard("", "", NEVER, "", NEVER, None)
  }

  lemma NeverShown()
    ensures Show(NEVER) == "any()" && "" + Show(NEVER) + "" == "any()" && Ok(NEVER) && SameShape(NEVER, NEVER)
    ensures Kleene(NEVER) == No
  {
    var args := Last(Gap(""));
    assert SlotTexts(args) == [""] && SlotOk(args.slot) && ArgsOk(args) && SameArgs(args, args);
  }

  lemma AbsentIs()
    ensures MetaOk(Absent(), true) && MetaText(Absent()) == "cfg(any())" && forall on :: !Permits(Absent(), on)
  {
    NeverShown();
    assert GuardTexts(Absent()) == ["any()"];
    assert "cfg" + ("" + ("(" + "any()" + ")")) == "cfg(any())";
    forall on: set<string> ensures !Permits(Absent(), on) { KleeneIsSound(NEVER, on); }
  }

  /** `#[cfg(any())]` and `#[test]`. */
  function Pair(lead: string, m: Meta, n: Meta, trail: string): Block
  {
    Block([Item(lead, "", m, ""), Item("\n", "", n, "")], trail)
  }

  /** Under `#[cfg(any())]` a test is listed that no configuration compiles. */
  lemma AbsentTestIsListed(lead: string, trail: string) returns (b: Block)
    requires '#' !in lead && '#' !in trail
    ensures BlockOk(b) && DeclaresATest(BlockText(b)) && forall on :: !IsTest(b, on)
    ensures BlockText(b) == lead + "#[cfg(any())]\n#[test]" + trail
  {
    var m := TestMeta();
    AbsentIs();
    b := Pair(lead, Absent(), m, trail);
    PairIs(lead, Absent(), m, trail);
    assert b.items[1].meta == m && PlainTest(m);
    DeclaresBlock(b);
    forall on: set<string> ensures !IsTest(b, on) { assert b.items[0].meta == Absent(); }
    PairText(lead, MetaText(Absent()), MetaText(m), trail);
  }

  lemma PairText(lead: string, s: string, t: string, trail: string)
    requires s == "cfg(any())" && t == "test"
    ensures lead + ("#[" + s + "]") + ("\n" + ("#[" + t + "]")) + trail == lead + "#[cfg(any())]\n#[test]" + trail
  {
    assert ("#[" + s + "]") + ("\n" + ("#[" + t + "]")) == "#[cfg(any())]\n#[test]";
    Assoc(lead, "#[" + s + "]", "\n" + ("#[" + t + "]"));
  }

  lemma PairIs(lead: string, m: Meta, n: Meta, trail: string)
    requires MetaOk(m, true) && '#' !in MetaText(m) && '#' !in lead && '#' !in trail
    requires MetaOk(n, true) && '#' !in MetaText(n)
    ensures BlockOk(Pair(lead, m, n, trail))
    ensures BlockText(Pair(lead, m, n, trail)) == lead + ("#[" + MetaText(m) + "]") + ("\n" + ("#[" + MetaText(n) + "]")) + trail
  {
    BareItem(lead, m);
    BareItem("\n", n);
    TwoItems(Item(lead, "", m, ""), Item("\n", "", n, ""));
  }

  lemma BareItem(lead: string, m: Meta)
    requires MetaOk(m, true) && '#' !in MetaText(m) && '#' !in lead
    ensures ItemOk(Item(lead, "", m, "")) && ItemBody(Item(lead, "", m, "")) == "#[" + MetaText(m) + "]"
  {
    assert ItemBody(Item(lead, "", m, "")) == "#[" + MetaText(m) + "]";
    NoHashIsQuiet(MetaText(m));
  }

  lemma TwoItems(i: Item, j: Item)
    ensures ItemsText([i, j]) == i.lead + ItemBody(i) + (j.lead + ItemBody(j))
  {
    assert [i, j][1..] == [j];
    OneItem(j);
  }

  lemma SegmentText(name: string)
    ensures FrontText([Segment(name, "", "")]) == name + "::"
  {
    var front := [Segment(name, "", "")];
    assert front[1..] == [];
    assert FrontText(front) == name + ("" + ("::" + ("" + "")));
  }
}
