/** Attribute blocks as syntax: paths, `cfg`s, `cfg_attr`s nested to any depth,
    any layout. What a block declares, and what `declares_a_test` sees of it. */
module AttributeBlocks {
  import opened Text
  import opened CfgPredicate
  import opened CfgTheorems
  import opened DeclaresTest

  // ----- syntax -----

  /** `name ::`, with its blanks. */
  datatype Segment = Segment(name: string, before: string, after: string)

  /** `a :: b :: last`, with a leading `::` if rooted. */
  datatype Path = Path(rooted: bool, gap: string, front: seq<Segment>, last: string)

  /** An attribute: a path with what follows it, a `cfg` (with an optional last
      comma and blanks), or a `cfg_attr`. `source` is the predicate of the
      source, `pred` what masking has left of it in the text. */
  datatype Meta =
    | Named(path: Path, gap: string, tail: string)
    | Guard(gap: string, before: string, pred: Pred, after: string, source: Pred, more: Option<string>)
    | Conditional(gap: string, before: string, pred: Pred, after: string, source: Pred, emitted: seq<Emitted>)

  /** What stands between two commas after the predicate. */
  datatype Emitted = Nothing(blank: string) | Attribute(before: string, meta: Meta, after: string)

  /** `#[...]` and the text before it. */
  datatype Item = Item(lead: string, gap: string, meta: Meta, end: string)

  datatype Block = Block(items: seq<Item>, trail: string)

  function FrontText(front: seq<Segment>): string
  {
    if front == [] then ""
    else front[0].name + (front[0].before + ("::" + (front[0].after + FrontText(front[1..]))))
  }

  function PathText(p: Path): string
  {
    (if p.rooted then "::" + p.gap else "") + (FrontText(p.front) + p.last)
  }

  function MetaText(m: Meta): string
    decreases m, 1
  {
    match m
    case Named(path, gap, tail) => PathText(path) + (gap + tail)
    case Guard(gap, _, _, _, _, _) => CFG + (gap + ("(" + Join(GuardTexts(m)) + ")"))
    case Conditional(gap, _, _, _, _, _) => CFG_ATTR + (gap + ("(" + Join(ArgumentTexts(m)) + ")"))
  }

  const CFG := "cfg"

  function GuardTexts(m: Meta): (r: seq<string>)
    requires m.Guard?
    ensures r != []
  {
    [m.before + Show(m.pred) + m.after] + (match m.more case None => [] case Some(blank) => [blank])
  }

  /** The arguments of a `cfg_attr`: its predicate, then what it emits. */
  function ArgumentTexts(m: Meta): (r: seq<string>)
    requires m.Conditional?
    ensures r != []
    decreases m, 0
  {
    [m.before + Show(m.pred) + m.after] + EmittedTexts(m.emitted)
  }

  function EmittedTexts(es: seq<Emitted>): (r: seq<string>)
    ensures |r| == |es|
    decreases es, 0
  {
    if es == [] then [] else [EmittedText(es[0])] + EmittedTexts(es[1..])
  }

  function EmittedText(e: Emitted): string
    decreases e, 0
  {
    match e
    case Nothing(blank) => blank
    case Attribute(before, meta, after) => before + MetaText(meta) + after
  }

  function ItemBody(i: Item): string
  {
    "#[" + (i.gap + (MetaText(i.meta) + (i.end + "]")))
  }

  function ItemsText(items: seq<Item>): string
  {
    if items == [] then "" else items[0].lead + ItemBody(items[0]) + ItemsText(items[1..])
  }

  function BlockText(b: Block): string
  {
    ItemsText(b.items) + b.trail
  }

  predicate Identifier(t: string)
  {
    t != "" && forall i :: 0 <= i < |t| ==>
      'a' <= t[i] <= 'z' || 'A' <= t[i] <= 'Z' || '0' <= t[i] <= '9' || t[i] == '_'
  }

  predicate GapOk(t: string, inside: bool)
  {
    if inside then AllInline(t) else Blank(t)
  }

  predicate PathOk(p: Path, inside: bool)
  {
    && GapOk(p.gap, inside) && Identifier(p.last)
    && FrontOk(p.front, inside)
  }

  predicate FrontOk(front: seq<Segment>, inside: bool)
  {
    forall i :: 0 <= i < |front| ==>
      Identifier(front[i].name) && GapOk(front[i].before, inside) && GapOk(front[i].after, inside)
  }

  /** What may follow a path: nothing, arguments, another delimited group, or a value. */
  ghost predicate TailOk(tail: string)
  {
    && (tail != "" ==> tail[0] in "([{=")
    && Trimmed(tail) && Closed(tail, 0) && ParenBalanced(tail)
  }

  ghost predicate MetaOk(m: Meta, inside: bool)
    decreases m
  {
    match m
    case Named(path, gap, tail) =>
      && PathOk(path, inside) && GapOk(gap, inside) && TailOk(tail) && (tail == "" ==> gap == "")
      && (path.front == [] && !path.rooted ==> path.last != CFG_ATTR && path.last != CFG)
    case Guard(gap, before, pred, after, source, more) =>
      && GapOk(gap, inside) && Blank(before) && Ok(pred) && Blank(after) && SameShape(source, pred)
      && (more.Some? ==> Blank(more.value))
    case Conditional(gap, before, pred, after, source, emitted) =>
      && GapOk(gap, inside) && Blank(before) && Ok(pred) && Blank(after) && SameShape(source, pred)
      && forall i :: 0 <= i < |emitted| ==> EmittedOk(emitted[i])
  }

  ghost predicate EmittedOk(e: Emitted)
    decreases e
  {
    match e
    case Nothing(blank) => Blank(blank)
    case Attribute(before, meta, after) => Blank(before) && Blank(after) && MetaOk(meta, false)
  }

  /** No other attribute is recognised inside this one. */
  predicate Quiet(t: string)
  {
    forall k :: 1 <= k < |t| ==> CfgStart(t[k..]) == 0 && !TestAt(t[k..])
  }

  ghost predicate ItemOk(i: Item)
  {
    '#' !in i.lead && AllInline(i.gap) && AllInline(i.end) && MetaOk(i.meta, true) && Quiet(ItemBody(i))
  }

  ghost predicate BlockOk(b: Block)
  {
    '#' !in b.trail && forall i :: 0 <= i < |b.items| ==> ItemOk(b.items[i])
  }

  // ----- what a block declares -----

  /** A path that ends in `test`, alone or with arguments in any delimiters. */
  predicate NamesTest(m: Meta)
  {
    m.Named? && m.path.last == "test" && (m.tail == "" || m.tail[0] in "([{")
  }

  /** Under the configuration `on` the attribute is, or expands to, a test attribute. */
  predicate Emits(m: Meta, on: set<string>)
    decreases m
  {
    match m
    case Named(_, _, _) => NamesTest(m)
    case Guard(_, _, _, _, _, _) => false
    case Conditional(_, _, _, _, source, emitted) =>
      Eval(source, on) && exists i :: 0 <= i < |emitted| && emitted[i].Attribute? && Emits(emitted[i].meta, on)
  }

  /** Under `on` every `cfg` the attribute is, or expands to, holds. */
  predicate Permits(m: Meta, on: set<string>)
    decreases m
  {
    match m
    case Named(_, _, _) => true
    case Guard(_, _, _, _, source, _) => Eval(source, on)
    case Conditional(_, _, _, _, source, emitted) =>
      Eval(source, on) ==> forall i :: 0 <= i < |emitted| && emitted[i].Attribute? ==> Permits(emitted[i].meta, on)
  }

  /** Under `on` the item below the block is compiled. */
  predicate Compiled(b: Block, on: set<string>)
  {
    forall i :: 0 <= i < |b.items| ==> Permits(b.items[i].meta, on)
  }

  /** Under `on` some attribute of the block is, or expands to, a test attribute. */
  predicate Marked(b: Block, on: set<string>)
  {
    exists i :: 0 <= i < |b.items| && Emits(b.items[i].meta, on)
  }

  /** Under `on` the block makes a compiled test. */
  predicate IsTest(b: Block, on: set<string>)
  {
    Marked(b, on) && Compiled(b, on)
  }

  // ----- what the scan sees -----

  /** A test attribute the recognisers accept: not rooted, and its arguments, if
      any, in parentheses. */
  predicate PlainTest(m: Meta)
  {
    NamesTest(m) && !m.path.rooted && (m.tail == "" || m.tail[0] == '(')
  }

  predicate PlainEmission(e: Emitted)
  {
    e.Attribute? && PlainTest(e.meta)
  }

  predicate SeenConditional(m: Meta)
  {
    m.Conditional? && Kleene(m.source) != No && exists i :: 0 <= i < |m.emitted| && PlainEmission(m.emitted[i])
  }

  predicate Seen(b: Block)
  {
    exists i :: 0 <= i < |b.items| && (PlainTest(b.items[i].meta) || SeenConditional(b.items[i].meta))
  }

  // ----- paths are recognised by their last segment -----

  lemma {:induction false} WordLenOf(w: string, t: string)
    requires (forall i :: 0 <= i < |w| ==> WordChar(w[i])) && (t == "" || !WordChar(t[0]))
    ensures WordLen(w + t) == |w|
    decreases |w|
  {
    if w == "" {
      assert w + t == t;
    } else {
      assert (w + t)[1..] == w[1..] + t;
      WordLenOf(w[1..], t);
    }
  }

  lemma SkipGap(gap: string, t: string, inside: bool)
    requires GapOk(gap, inside) && (t == "" || !IsSpace(t[0]))
    ensures Skip(gap + t, inside) == t
  {
    if inside { InlineLenAt(gap, t); } else { LStripBlank(gap, t); }
  }

  /** The first word of a text and what follows its blanks. */
  lemma FirstWord(name: string, gap: string, t: string, inside: bool)
    requires Identifier(name) && GapOk(gap, inside) && (t == "" || (!IsSpace(t[0]) && !WordChar(t[0])))
    ensures var text := name + (gap + t);
            WordLen(text) == |name| && text[..|name|] == name && Skip(text[|name|..], inside) == t
  {
    var text := name + (gap + t);
    assert gap + t == "" || !WordChar((gap + t)[0]);
    WordLenOf(name, gap + t);
    assert text[|name|..] == gap + t;
    SkipGap(gap, t, inside);
  }

  lemma LastSegment(last: string, gap: string, tail: string, inside: bool)
    requires Identifier(last) && GapOk(gap, inside) && (tail == "" || tail[0] in "([{=]")
    ensures TestPath(last + (gap + tail), inside)
       <==> last == "test" && if tail == "" then !inside else tail[0] == '(' || (inside && tail[0] == ']')
  {
    NoWordStarts(tail);
    FirstWord(last, gap, tail, inside);
    hide Identifier, WordLen, Skip;
  }

  lemma NoWordStarts(tail: string)
    requires tail != "" ==> tail[0] in "([{=]"
    ensures tail != "" ==> !IsSpace(tail[0]) && !WordChar(tail[0]) && tail[0] != ':'
  {}

  lemma NextSegment(s: Segment, rest: string, inside: bool)
    requires Identifier(s.name) && GapOk(s.before, inside) && GapOk(s.after, inside) && rest != "" && !IsSpace(rest[0])
    ensures TestPath(s.name + (s.before + ("::" + (s.after + rest))), inside) == TestPath(rest, inside)
  {
    var after := "::" + (s.after + rest);
    assert after[0] == ':' && after[1] == ':' && after[2..] == s.after + rest;
    FirstWord(s.name, s.before, after, inside);
    SkipGap(s.after, rest, inside);
    hide Identifier, WordLen, Skip;
  }

  /** Whatever the segments and blanks, only the last segment and the character after it count. */
  lemma {:induction false} TestPathOf(front: seq<Segment>, last: string, gap: string, tail: string, inside: bool)
    requires FrontOk(front, inside) && Identifier(last) && GapOk(gap, inside)
    requires tail == "" || tail[0] in "([{=]"
    ensures TestPath(FrontText(front) + (last + (gap + tail)), inside)
       <==> last == "test" && if tail == "" then !inside else tail[0] == '(' || (inside && tail[0] == ']')
    decreases |front|
  {
    hide TestPath, Identifier;
    if front == [] {
      assert "" + (last + (gap + tail)) == last + (gap + tail);
      LastSegment(last, gap, tail, inside);
    } else {
      var s := front[0];
      var rest := FrontText(front[1..]) + (last + (gap + tail));
      assert FrontOk(front[1..], inside);
      TestPathOf(front[1..], last, gap, tail, inside);
      assert FrontText(front) + (last + (gap + tail)) == s.name + (s.before + ("::" + (s.after + rest)));
      StartsWithWord(front[1..], last, gap + tail, inside);
      NextSegment(s, rest, inside);
    }
  }

  lemma StartsWithWord(front: seq<Segment>, last: string, t: string, inside: bool)
    requires FrontOk(front, inside) && Identifier(last)
    ensures var text := FrontText(front) + (last + t); text != "" && WordChar(text[0]) && !IsSpace(text[0])
  {
    if front != [] { assert (FrontText(front) + (last + t))[0] == front[0].name[0]; }
  }

  lemma PathBegins(p: Path, t: string)
    ensures p.rooted ==> PathText(p) + t != "" && (PathText(p) + t)[0] == ':'
    ensures !p.rooted ==> PathText(p) + t == FrontText(p.front) + (p.last + t)
  {
    hide FrontText;
    var front := FrontText(p.front) + p.last;
    var head := if p.rooted then "::" + p.gap else "";
    assert PathText(p) == head + front;
    assert p.rooted ==> (head + front + t)[0] == ':';
    assert !p.rooted ==> head + front == front;
    Assoc(FrontText(p.front), p.last, t);
  }

  lemma ColonIsNoTest(t: string, inside: bool)
    requires t != "" && t[0] == ':'
    ensures !TestPath(t, inside)
  {}

  /** The text of a path followed by `gap` and `tail` is recognised exactly if
      it is not rooted and its last segment is `test`. */
  lemma TestPathOfPath(p: Path, gap: string, tail: string, inside: bool)
    requires PathOk(p, inside) && GapOk(gap, inside) && (tail == "" || tail[0] in "([{=]")
    ensures TestPath(PathText(p) + (gap + tail), inside)
       <==> !p.rooted && p.last == "test" && if tail == "" then !inside else tail[0] == '(' || (inside && tail[0] == ']')
  {
    hide TestPath, FrontText, PathText, Identifier, FrontOk;
    PathBegins(p, gap + tail);
    if p.rooted {
      ColonIsNoTest(PathText(p) + (gap + tail), inside);
    } else {
      TestPathOf(p.front, p.last, gap, tail, inside);
    }
  }
}
