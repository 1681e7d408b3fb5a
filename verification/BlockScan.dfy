/** What `declares_a_test` finds in the text of an attribute block: exactly the
    test paths it writes directly, or emits directly from a `cfg_attr` whose
    predicate is not constantly false. */
module BlockScan {
  import opened Text
  import opened Attributes
  import opened CfgPredicate
  import opened CfgTheorems
  import opened DeclaresTest
  import opened AttributeBlocks

  // ----- the shape of printed attributes -----

  lemma EndOfConcat(a: string, b: string)
    requires b != ""
    ensures (a + b)[|a + b| - 1] == b[|b| - 1]
  {}

  lemma LastIsWord(name: string)
    requires Identifier(name)
    ensures name != "" && !IsSpace(name[|name| - 1])
  {}

  /** A path begins with a word or a colon, and ends with a word. */
  lemma PathEnds(path: Path, inside: bool)
    requires PathOk(path, inside)
    ensures var t := PathText(path); t != "" && (WordChar(t[0]) || t[0] == ':') && !IsSpace(t[|t| - 1])
  {
    LastIsWord(path.last);
    FrontStarts(path, inside);
    hide FrontText, Identifier, FrontOk, WordChar, IsSpace, PathOk;
    var front := FrontText(path.front) + path.last;
    var head := if path.rooted then "::" + path.gap else "";
    assert PathText(path) == head + front;
    EndOfConcat(FrontText(path.front), path.last);
    EndOfConcat(head, front);
    assert (head + front)[0] == if path.rooted then ':' else front[0];
  }

  lemma FrontStarts(path: Path, inside: bool)
    requires PathOk(path, inside)
    ensures var front := FrontText(path.front) + path.last; front != "" && WordChar(front[0])
  {
    hide FrontText, Identifier, FrontOk, WordChar, IsSpace;
    StartsWithWord(path.front, path.last, "", inside);
    assert path.last + "" == path.last;
  }

  lemma WordIsNoSpace(c: char)
    ensures WordChar(c) || c == ':' ==> !IsSpace(c)
  {}

  lemma NamedEnds(path: Path, gap: string, tail: string, inside: bool)
    requires PathOk(path, inside) && Trimmed(tail) && (tail == "" ==> gap == "")
    ensures var t := PathText(path) + (gap + tail); t != "" && Trimmed(t) && (WordChar(t[0]) || t[0] == ':')
  {
    PathEnds(path, inside);
    hide PathText, PathOk, WordChar, IsSpace;
    var head := PathText(path);
    WordIsNoSpace(head[0]);
    if tail == "" {
      assert head + (gap + tail) == head;
    } else {
      EndOfConcat(gap, tail);
      EndOfConcat(head, gap + tail);
      assert (head + (gap + tail))[0] == head[0];
    }
  }

  lemma MetaEnds(m: Meta, inside: bool)
    requires MetaOk(m, inside)
    ensures var t := MetaText(m); t != "" && Trimmed(t) && (WordChar(t[0]) || t[0] == ':')
  {
    match m
    case Named(path, gap, tail) => NamedEnds(path, gap, tail, inside);
    case Guard(gap, _, _, _, _, _) => CallEnds(CFG, gap, Join(GuardTexts(m)));
    case Conditional(gap, _, _, _, _, _) => CallEnds(CFG_ATTR, gap, Join(ArgumentTexts(m)));
  }

  lemma CallEnds(name: string, gap: string, w: string)
    requires Identifier(name)
    ensures var t := name + (gap + ("(" + w + ")")); t != "" && Trimmed(t) && WordChar(t[0])
  {
    var call := gap + ("(" + w + ")");
    EndOfConcat(gap + "(" + w, ")");
    assert call == gap + "(" + w + ")";
    EndOfConcat(name, call);
    assert (name + call)[0] == name[0];
  }

  /** Text of paths and blanks: nothing in it opens, closes or separates. */
  predicate Flat(t: string)
  {
    forall i :: 0 <= i < |t| ==> Nesting(t[i]) == 0 && t[i] != ','
  }

  lemma FlatConcat(s: string, t: string)
    requires Flat(s) && Flat(t)
    ensures Flat(s + t)
  {}

  lemma GapIsFlat(t: string, inside: bool)
    requires GapOk(t, inside)
    ensures Flat(t)
  {}

  lemma {:induction false} FrontIsFlat(front: seq<Segment>, inside: bool)
    requires FrontOk(front, inside)
    ensures Flat(FrontText(front))
    decreases |front|
  {
    if front != [] {
      var s, rest := front[0], FrontText(front[1..]);
      FrontIsFlat(front[1..], inside);
      GapIsFlat(s.before, inside);
      GapIsFlat(s.after, inside);
      FlatConcat(s.after, rest);
      FlatConcat("::", s.after + rest);
      FlatConcat(s.before, "::" + (s.after + rest));
      FlatConcat(s.name, s.before + ("::" + (s.after + rest)));
    }
  }

  lemma PathIsFlat(p: Path, inside: bool)
    requires PathOk(p, inside)
    ensures Flat(PathText(p))
  {
    FrontIsFlat(p.front, inside);
    GapIsFlat(p.gap, inside);
    FlatConcat(FrontText(p.front), p.last);
    FlatConcat("::", p.gap);
    FlatConcat(if p.rooted then "::" + p.gap else "", FrontText(p.front) + p.last);
  }

  /** Text that stays inside one argument for both readers: the comma splitter and the parenthesis scan. */
  ghost predicate Contained(t: string)
  {
    Closed(t, 0) && Skips(t)
  }

  lemma FlatIsContained(t: string)
    requires Flat(t)
    ensures Contained(t)
  {
    FlatIsClosed(t);
    assert '(' !in t && ')' !in t;
    NoParenSkips(t);
  }

  lemma ContainedConcat(s: string, t: string)
    requires Contained(s) && Contained(t)
    ensures Contained(s + t)
  {
    ClosedConcat(s, t, 0);
    SkipsConcat(s, t);
  }

  lemma ContainedAround(before: string, t: string, after: string)
    requires Blank(before) && Contained(t) && Blank(after)
    ensures Contained(before + t + after)
  {
    FlatIsContained(before);
    FlatIsContained(after);
    ContainedConcat(before, t);
    ContainedConcat(before + t, after);
  }

  /** A call with contained arguments is contained. */
  lemma CallIsContained(head: string, parts: seq<string>)
    requires Flat(head) && parts != [] && forall p :: p in parts ==> Contained(p)
    ensures Contained(head + ("(" + Join(parts) + ")"))
  {
    JoinIsClosed(parts);
    ParenthesizedIsClosed(Join(parts));
    JoinSkips(parts);
    ParenthesizedSkips(Join(parts));
    FlatIsContained(head);
    ContainedConcat(head, "(" + Join(parts) + ")");
  }

  lemma {:induction false} ShowIsContained(p: Pred)
    requires Ok(p)
    ensures Contained(Show(p))
    decreases p
  {
    match p
    case Const(_) => FlatIsContained(Show(p));
    case Atom(text) => FlatIsContained(text);
    case Call(kind, gap, args) =>
      SlotsAreContained(args);
      GapIsFlat(gap, false);
      FlatConcat(Name(kind), gap);
      CallIsContained(Name(kind) + gap, SlotTexts(args));
      assert Show(p) == Name(kind) + gap + ("(" + Join(SlotTexts(args)) + ")");
  }

  lemma {:induction false} SlotsAreContained(args: Args)
    requires ArgsOk(args)
    ensures forall t :: t in SlotTexts(args) ==> Contained(t)
    decreases args
  {
    match args.slot {
      case Gap(blank) => FlatIsContained(blank);
      case Arg(before, pred, after) =>
        ShowIsContained(pred);
        ContainedAround(before, Show(pred), after);
    }
    if args.More? { SlotsAreContained(args.rest); }
  }

  lemma {:induction false} MetaIsContained(m: Meta, inside: bool)
    requires MetaOk(m, inside)
    ensures Contained(MetaText(m))
    decreases m, 1
  {
    match m
    case Named(path, gap, tail) =>
      PathIsFlat(path, inside);
      FlatIsContained(PathText(path));
      GapIsFlat(gap, inside);
      FlatIsContained(gap);
      BalancedSkips(tail);
      ContainedConcat(gap, tail);
      ContainedConcat(PathText(path), gap + tail);
    case Guard(gap, before, pred, after, _, more) =>
      ShowIsContained(pred);
      ContainedAround(before, Show(pred), after);
      if more.Some? { FlatIsContained(more.value); }
      WordCallIsContained(CFG, gap, GuardTexts(m), inside);
    case Conditional(gap, _, _, _, _, _) =>
      ArgumentsAreContained(m, inside);
      WordCallIsContained(CFG_ATTR, gap, ArgumentTexts(m), inside);
  }

  lemma WordCallIsContained(name: string, gap: string, parts: seq<string>, inside: bool)
    requires Flat(name) && GapOk(gap, inside) && parts != [] && forall p :: p in parts ==> Contained(p)
    ensures Contained(name + (gap + ("(" + Join(parts) + ")")))
  {
    GapIsFlat(gap, inside);
    FlatConcat(name, gap);
    CallIsContained(name + gap, parts);
    Assoc(name, gap, "(" + Join(parts) + ")");
  }

  lemma {:induction false} ArgumentsAreContained(m: Meta, inside: bool)
    requires MetaOk(m, inside) && m.Conditional?
    ensures forall t :: t in ArgumentTexts(m) ==> Contained(t)
    decreases m, 0
  {
    ShowIsContained(m.pred);
    ContainedAround(m.before, Show(m.pred), m.after);
    EmittedAreContained(m.emitted);
  }

  lemma {:induction false} EmittedAreContained(es: seq<Emitted>)
    requires forall i :: 0 <= i < |es| ==> EmittedOk(es[i])
    ensures forall t :: t in EmittedTexts(es) ==> Contained(t)
    decreases es, 0
  {
    if es != [] {
      assert EmittedOk(es[0]);
      EmittedIsContained(es[0]);
      EmittedAreContained(es[1..]);
    }
  }

  lemma {:induction false} EmittedIsContained(e: Emitted)
    requires EmittedOk(e)
    ensures Contained(EmittedText(e))
    decreases e, 0
  {
    match e
    case Nothing(blank) => FlatIsContained(blank);
    case Attribute(before, meta, after) =>
      MetaIsContained(meta, false);
      ContainedAround(before, MetaText(meta), after);
  }

  // ----- one `cfg_attr` -----

  /** An emitted attribute is taken for a test exactly if it is a plain test path. */
  lemma EmittedIsTest(e: Emitted)
    requires EmittedOk(e)
    ensures TestPath(Strip(EmittedText(e)), false) <==> PlainEmission(e)
  {
    match e
    case Nothing(blank) =>
      assert blank == blank + "" + "";
      StripSurrounded(blank, "", "");
    case Attribute(before, meta, after) =>
      MetaEnds(meta, false);
      StripSurrounded(before, MetaText(meta), after);
      MetaIsTest(meta, "", "", false);
      assert MetaText(meta) + ("" + "") == MetaText(meta);
  }

  /** The recogniser at an attribute, in front of blanks and a closing bracket or the end. */
  lemma MetaIsTest(m: Meta, end: string, follow: string, inside: bool)
    requires MetaOk(m, inside) && GapOk(end, inside)
    requires if inside then follow != "" && follow[0] == ']' else end == "" && follow == ""
    ensures TestPath(MetaText(m) + (end + follow), inside) <==> PlainTest(m)
  {
    match m
    case Named(path, gap, tail) => NamedIsTest(path, gap, tail, end, follow, inside);
    case Guard(gap, _, _, _, _, _) =>
      CallIsNoTest(CFG, gap, Join(GuardTexts(m)), end + follow, inside);
    case Conditional(gap, _, _, _, _, _) =>
      CallIsNoTest(CFG_ATTR, gap, Join(ArgumentTexts(m)), end + follow, inside);
  }

  lemma NamedIsTest(path: Path, gap: string, tail: string, end: string, follow: string, inside: bool)
    requires PathOk(path, inside) && GapOk(gap, inside) && (tail == "" ==> gap == "") && GapOk(end, inside)
    requires tail != "" ==> tail[0] in "([{="
    requires if inside then follow != "" && follow[0] == ']' else end == "" && follow == ""
    ensures TestPath(PathText(path) + (gap + tail) + (end + follow), inside)
       <==> !path.rooted && path.last == "test" && (tail == "" || tail[0] == '(')
  {
    NamedSplits(PathText(path), gap, tail, end + follow);
    if tail == "" {
      TestPathOfPath(path, end, follow, inside);
    } else {
      TestPathOfPath(path, gap, tail + (end + follow), inside);
    }
  }

  lemma NamedSplits(p: string, gap: string, tail: string, t: string)
    requires tail == "" ==> gap == ""
    ensures p + (gap + tail) + t == if tail == "" then p + t else p + (gap + (tail + t))
  {
    if tail == "" {
      assert gap + tail == "";
    } else {
      Assoc(p, gap + tail, t);
      Assoc(gap, tail, t);
    }
  }

  lemma CallIsNoTest(name: string, gap: string, w: string, t: string, inside: bool)
    requires Identifier(name) && name[0] == 'c' && GapOk(gap, inside)
    ensures !TestPath(name + (gap + ("(" + w + ")")) + t, inside)
  {
    CallText(name, gap, w, t);
    var text := name + (gap + ("(" + w + ")" + t));
    assert FrontText([]) + text == text;
    assert name[0] != "test"[0];
    TestPathOf([], name, gap, "(" + w + ")" + t, inside);
  }

  lemma {:induction false} EmitsPlainTest(es: seq<Emitted>)
    requires forall i :: 0 <= i < |es| ==> EmittedOk(es[i])
    ensures EmitsTest(EmittedTexts(es)) <==> exists i :: 0 <= i < |es| && PlainEmission(es[i])
    decreases |es|
  {
    if es != [] {
      var rest := es[1..];
      EmittedIsTest(es[0]);
      EmitsPlainTest(rest);
      var texts := EmittedTexts(es);
      assert texts[0] == EmittedText(es[0]) && texts[1..] == EmittedTexts(rest);
      FirstOrRest(texts);
      if i :| 0 <= i < |rest| && PlainEmission(rest[i]) { assert es[i + 1] == rest[i]; }
      if i :| 0 <= i < |es| && PlainEmission(es[i]) { if i > 0 { assert rest[i - 1] == es[i]; } }
    }
  }

  lemma FirstOrRest(texts: seq<string>)
    requires texts != []
    ensures EmitsTest(texts) <==> TestPath(Strip(texts[0]), false) || EmitsTest(texts[1..])
  {
    var rest := texts[1..];
    if i :| 0 <= i < |rest| && TestPath(Strip(rest[i]), false) { assert texts[i + 1] == rest[i]; }
    if i :| 0 <= i < |texts| && TestPath(Strip(texts[i]), false) { if i > 0 { assert rest[i - 1] == texts[i]; } }
  }

  lemma {:induction false} ContainedIsSeparable(parts: seq<string>)
    requires parts != [] && forall p :: p in parts ==> Contained(p)
    ensures Separable(parts)
  {
    ClosedIsSeparable(parts);
  }

  /** The argument of a `cfg_attr` declares a test exactly if its predicate is
      not constantly false and it emits a plain test path itself. */
  lemma DeclaresOfMeta(m: Meta, inside: bool)
    requires MetaOk(m, inside) && m.Conditional?
    ensures Declares(Join(ArgumentTexts(m))) <==> SeenConditional(m)
  {
    var parts := ArgumentTexts(m);
    ArgumentsAreContained(m, inside);
    ContainedIsSeparable(parts);
    SplitJoin(parts);
    TruthIsKleene(m.before, m.pred, m.after);
    KleeneOfShape(m.source, m.pred);
    assert parts[1..] == EmittedTexts(m.emitted);
    EmitsPlainTest(m.emitted);
  }

  // ----- one item -----

  predicate Sealed(u: string)
  {
    u != "" && u[|u| - 1] == ']'
  }

  lemma {:induction false} WordLenSealed(u: string, v: string)
    requires Sealed(u)
    ensures WordLen(u + v) == WordLen(u) < |u|
    decreases |u|
  {
    if |u| > 1 {
      assert (u + v)[1..] == u[1..] + v;
      WordLenSealed(u[1..], v);
    }
  }

  lemma {:induction false} SkipSealed(u: string, v: string)
    requires Sealed(u)
    ensures Skip(u + v, true) == Skip(u, true) + v && Sealed(Skip(u, true))
    decreases |u|
  {
    if Inline(u[0]) {
      assert (u + v)[1..] == u[1..] + v;
      SkipSealed(u[1..], v);
      assert Skip(u, true) == Skip(u[1..], true);
      assert Skip(u + v, true) == Skip(u[1..] + v, true);
    }
  }

  lemma PairSealed(u: string, v: string, a: char, b: char)
    requires Sealed(u) && a != ']' && b != ']'
    ensures (u + v)[0] == u[0] && (StartsPair(u + v, a, b) <==> StartsPair(u, a, b))
    ensures StartsPair(u, a, b) ==> (u + v)[2..] == u[2..] + v && Sealed(u[2..])
  {
    if |u| > 1 { assert (u + v)[1] == u[1]; }
  }

  /** The recogniser of paths never reads past a closing bracket. */
  lemma {:induction false} TestPathSealed(u: string, v: string)
    requires Sealed(u)
    ensures TestPath(u + v, true) <==> TestPath(u, true)
    decreases |u|
  {
    WordLenSealed(u, v);
    var n := WordLen(u);
    if n > 0 {
      CutSealed(u, v, n);
      SkipSealed(u[n..], v);
      var rest := Skip(u[n..], true);
      PairSealed(rest, v, ':', ':');
      if StartsPair(rest, ':', ':') {
        SkipSealed(rest[2..], v);
        TestPathSealed(Skip(rest[2..], true), v);
      }
    }
  }

  lemma CutSealed(u: string, v: string, n: nat)
    requires Sealed(u) && n < |u|
    ensures (u + v)[..n] == u[..n] && (u + v)[n..] == u[n..] + v && Sealed(u[n..])
  {}

  lemma TestAtSealed(u: string, v: string)
    requires Sealed(u)
    ensures TestAt(u + v) <==> TestAt(u)
  {
    PairSealed(u, v, '#', '[');
    if StartsPair(u, '#', '[') {
      SkipSealed(u[2..], v);
      TestPathSealed(Skip(u[2..], true), v);
    }
  }

  lemma CfgStartSealed(u: string, v: string)
    requires Sealed(u)
    ensures CfgStart(u + v) == CfgStart(u)
  {
    var w := u[..|u| - 1];
    assert u == w + "]";
    if w == "" {
      assert (u + v)[0] == ']';
    } else {
      assert u + v == w + ("]" + v);
      CfgStartStops(w, "]" + v);
      CfgStartStops(w, "]");
    }
  }

  lemma SkipOne(t: string)
    requires t != "" && CfgStart(t) == 0 && !TestAt(t)
    ensures CfgArguments(t) == CfgArguments(t[1..])
    ensures HasTestAttribute(t) <==> HasTestAttribute(t[1..])
  {}

  /** Text without `#` holds no attribute. */
  lemma {:induction false} NoHashSkips(u: string, v: string)
    requires '#' !in u
    ensures CfgArguments(u + v) == CfgArguments(v)
    ensures HasTestAttribute(u + v) <==> HasTestAttribute(v)
    decreases |u|
  {
    if u == "" {
      assert u + v == v;
    } else {
      assert u[0] in u;
      SkipOne(u + v);
      assert (u + v)[1..] == u[1..] + v;
      NoHashSkips(u[1..], v);
    }
  }

  /** No attribute is recognised at `k` in front of `v`. */
  predicate Silent(t: string, k: nat, v: string)
    requires k <= |t|
  {
    CfgStart(t[k..] + v) == 0 && !TestAt(t[k..] + v)
  }

  lemma QuietAt(t: string, k: nat, v: string)
    requires Sealed(t) && Quiet(t) && 1 <= k < |t|
    ensures Silent(t, k, v)
  {
    CfgStartSealed(t[k..], v);
    TestAtSealed(t[k..], v);
  }

  lemma NextSuffix(t: string, n: nat, v: string)
    requires n < |t|
    ensures t[n..] + v != "" && (t[n..] + v)[1..] == t[n + 1..] + v
  {}

  lemma SilentStep(t: string, n: nat, v: string)
    requires n < |t| && Silent(t, n, v)
    ensures CfgArguments(t[n..] + v) == CfgArguments(t[n + 1..] + v)
    ensures HasTestAttribute(t[n..] + v) <==> HasTestAttribute(t[n + 1..] + v)
  {
    NextSuffix(t, n, v);
    SkipOne(t[n..] + v);
  }

  lemma {:induction false} SilentSkips(t: string, n: nat, v: string)
    requires n <= |t| && forall k :: n <= k < |t| ==> Silent(t, k, v)
    ensures CfgArguments(t[n..] + v) == CfgArguments(v)
    ensures HasTestAttribute(t[n..] + v) <==> HasTestAttribute(v)
    decreases |t| - n
  {
    if n == |t| {
      assert t[n..] + v == v;
    } else {
      SilentStep(t, n, v);
      SilentSkips(t, n + 1, v);
    }
  }

  /** Past its start an item holds no further attribute. */
  lemma QuietSkips(t: string, n: nat, v: string)
    requires Sealed(t) && Quiet(t) && 1 <= n <= |t|
    ensures CfgArguments(t[n..] + v) == CfgArguments(v)
    ensures HasTestAttribute(t[n..] + v) <==> HasTestAttribute(v)
  {
    forall k | n <= k < |t| ensures Silent(t, k, v) { QuietAt(t, k, v); }
    SilentSkips(t, n, v);
  }

  /** The first word of an unrooted path, and the rest. */
  lemma FrontFirst(front: seq<Segment>, last: string, t: string)
    ensures front == [] ==> "" + (FrontText(front) + last) + t == last + t
    ensures front != [] ==>
      var s := front[0];
      "" + (FrontText(front) + last) + t == s.name + (s.before + ("::" + (s.after + (FrontText(front[1..]) + (last + t)))))
  {
    if front != [] {
      var s, rest := front[0], FrontText(front[1..]);
      Regroup(s.name, s.before, s.after, rest, last, t);
    }
  }

  lemma Regroup(a: string, b: string, c: string, d: string, e: string, f: string)
    ensures "" + (a + (b + ("::" + (c + d))) + e) + f == a + (b + ("::" + (c + (d + (e + f)))))
  {}

  /** A text that starts with no `cfg_attr (`, although it may start with that word. */
  lemma NamedIsNoStart(path: Path, gap: string, t: string)
    requires PathOk(path, true) && AllInline(gap) && t != "" && !Inline(t[0]) && !WordChar(t[0])
    requires path.front == [] && !path.rooted ==> path.last != CFG_ATTR
    ensures var text := PathText(path) + (gap + t);
            Starts(text, CFG_ATTR) ==>
              var after := text[8..]; InlineLen(after) < |after| && after[InlineLen(after)] != '('
  {
    var text := PathText(path) + (gap + t);
    if Starts(text, CFG_ATTR) {
      assert text[0] == 'c' by { assert text[..8][0] == 'c'; }
      assert !path.rooted;
      FrontFirst(path.front, path.last, gap + t);
      if path.front == [] {
        WordThen(path.last, gap, t);
      } else {
        var s := path.front[0];
        WordThen(s.name, s.before, "::" + (s.after + (FrontText(path.front[1..]) + (path.last + (gap + t)))));
      }
    }
  }

  /** A text that starts with the word `cfg_attr` has it inside its own first word. */
  lemma LongEnough(name: string, t: string)
    requires Starts(name + t, CFG_ATTR) && t != "" && !WordChar(t[0])
    ensures |name| >= 8
  {
    var s := name + t;
    forall i | 0 <= i < 8 ensures WordChar(s[i]) { assert s[..8][i] == CFG_ATTR[i]; }
    assert s[|name|] == t[0];
  }

  lemma WordThen(name: string, gap: string, t: string)
    requires Identifier(name) && AllInline(gap) && t != "" && !Inline(t[0]) && !WordChar(t[0])
    requires Starts(name + (gap + t), CFG_ATTR) && (name == CFG_ATTR ==> t[0] != '(')
    ensures var after := (name + (gap + t))[8..]; InlineLen(after) < |after| && after[InlineLen(after)] != '('
  {
    var text := name + (gap + t);
    LongEnough(name, gap + t);
    if |name| == 8 {
      assert text[..8] == name;
      assert text[8..] == gap + t;
      InlineLenAt(gap, t);
    } else {
      assert text[8..][0] == name[8];
    }
  }

  lemma ItemSplits(i: Item, v: string)
    ensures var rest := MetaText(i.meta) + (i.end + ("]" + v));
            && ItemBody(i) + v == "#[" + (i.gap + rest) && (ItemBody(i) + v)[2..] == i.gap + rest
    ensures Sealed(ItemBody(i))
  {}

  /** A test attribute is found at an item exactly if it is a plain test path. */
  lemma TestAtItem(i: Item, v: string)
    requires ItemOk(i)
    ensures TestAt(ItemBody(i) + v) <==> PlainTest(i.meta)
  {
    var rest := MetaText(i.meta) + (i.end + ("]" + v));
    ItemSplits(i, v);
    MetaEnds(i.meta, true);
    SkipGap(i.gap, rest, true);
    MetaIsTest(i.meta, i.end, "]" + v, true);
  }

  lemma StartOfNamed(i: Item, v: string)
    requires ItemOk(i) && i.meta.Named?
    ensures CfgStart(ItemBody(i) + v) == 0
  {
    var m := i.meta;
    var close := i.end + ("]" + v);
    var rest := MetaText(m) + close;
    ItemSplits(i, v);
    MetaEnds(m, true);
    StartAfterGap(i.gap, rest);
    Assoc(PathText(m.path), m.gap + m.tail, close);
    if m.tail == "" {
      NamedIsNoStart(m.path, i.end, "]" + v);
      assert rest == PathText(m.path) + close by { assert m.gap + m.tail + close == close; }
    } else {
      NamedIsNoStart(m.path, m.gap, m.tail + close);
      Assoc(m.gap, m.tail, close);
    }
  }

  lemma StartOfConditional(i: Item, v: string)
    requires ItemOk(i) && i.meta.Conditional?
    ensures var n := CfgStart(ItemBody(i) + v);
            && 1 <= n <= |ItemBody(i)|
            && (ItemBody(i) + v)[n..] == ItemBody(i)[n..] + v
            && (ItemBody(i) + v)[n..] == Join(ArgumentTexts(i.meta)) + ")" + (i.end + ("]" + v))
  {
    var w := Join(ArgumentTexts(i.meta));
    var rest := w + ")" + (i.end + ("]" + v));
    ConditionalText(i, v);
    CallStart(i.gap, i.meta.gap, rest);
    ConditionalLength(i, w);
    CutAt(ItemBody(i), v, 11 + |i.gap| + |i.meta.gap|);
  }

  /** The text of a `cfg_attr` item up to its argument, and the rest. */
  lemma ConditionalText(i: Item, v: string)
    requires i.meta.Conditional?
    ensures ItemBody(i) + v
         == "#[" + (i.gap + (CFG_ATTR + (i.meta.gap + ("(" + (Join(ArgumentTexts(i.meta)) + ")" + (i.end + ("]" + v)))))))
  {
    var w, close := Join(ArgumentTexts(i.meta)), i.end + ("]" + v);
    ItemSplits(i, v);
    CallText(CFG_ATTR, i.meta.gap, w, close);
    assert "(" + w + ")" + close == "(" + (w + ")" + close);
  }

  lemma ConditionalLength(i: Item, w: string)
    requires i.meta.Conditional? && w == Join(ArgumentTexts(i.meta))
    ensures |ItemBody(i)| == 13 + |i.gap| + |i.meta.gap| + |w| + |i.end|
  {
    assert |MetaText(i.meta)| == 10 + |i.meta.gap| + |w|;
  }

  lemma CallText(name: string, gap: string, w: string, close: string)
    ensures name + (gap + ("(" + w + ")")) + close == name + (gap + ("(" + w + ")" + close))
  {
    Assoc(name, gap + ("(" + w + ")"), close);
    Assoc(gap, "(" + w + ")", close);
  }

  lemma CutAt(u: string, v: string, n: nat)
    requires n <= |u|
    ensures (u + v)[n..] == u[n..] + v
  {}

  lemma BodyReads(i: Item, v: string)
    requires ItemOk(i)
    ensures HasTestAttribute(ItemBody(i) + v) <==> PlainTest(i.meta) || HasTestAttribute(v)
  {
    var body := ItemBody(i);
    TestAtItem(i, v);
    ItemSplits(i, v);
    QuietSkips(body, 1, v);
    CutAt(body, v, 1);
  }

  /** `cfg(` is not `cfg_attr(`. */
  lemma StartOfGuard(i: Item, v: string)
    requires ItemOk(i) && i.meta.Guard?
    ensures CfgStart(ItemBody(i) + v) == 0
  {
    var m, close := i.meta, i.end + ("]" + v);
    var w := Join(GuardTexts(m));
    ItemSplits(i, v);
    CallText(CFG, m.gap, w, close);
    var after := m.gap + ("(" + w + ")" + close);
    assert after[0] == if m.gap == "" then '(' else m.gap[0];
    NoLongerWord(after);
    StartAfterGap(i.gap, CFG + after);
  }

  lemma NoLongerWord(after: string)
    requires after != "" && !WordChar(after[0])
    ensures !Starts(CFG + after, CFG_ATTR)
  {
    if Starts(CFG + after, CFG_ATTR) { LongEnough(CFG, after); }
  }

  lemma OtherReads(i: Item, v: string)
    requires ItemOk(i) && !i.meta.Conditional?
    ensures CfgArguments(ItemBody(i) + v) == CfgArguments(v)
  {
    var body := ItemBody(i);
    ItemSplits(i, v);
    if i.meta.Named? { StartOfNamed(i, v); } else { StartOfGuard(i, v); }
    QuietSkips(body, 1, v);
    CutAt(body, v, 1);
    CfgUnfolds(body + v);
  }

  lemma ConditionalReads(i: Item, v: string)
    requires ItemOk(i) && i.meta.Conditional?
    ensures CfgArguments(ItemBody(i) + v) == [Join(ArgumentTexts(i.meta))] + CfgArguments(v)
  {
    var body := ItemBody(i);
    ItemSplits(i, v);
    StartOfConditional(i, v);
    var n := CfgStart(body + v);
    QuietSkips(body, n, v);
    ArgumentsAreContained(i.meta, true);
    JoinSkips(ArgumentTexts(i.meta));
    ArgumentOfSkipped(Join(ArgumentTexts(i.meta)), i.end + ("]" + v));
    CfgUnfolds(body + v);
  }

  /** Reading an item: what it declares itself, then what follows. */
  lemma ItemReads(i: Item, v: string)
    requires ItemOk(i)
    ensures HasTestAttribute(i.lead + ItemBody(i) + v) <==> PlainTest(i.meta) || HasTestAttribute(v)
    ensures CfgArguments(i.lead + ItemBody(i) + v)
         == (if i.meta.Conditional? then [Join(ArgumentTexts(i.meta))] else []) + CfgArguments(v)
  {
    var body := ItemBody(i);
    Assoc(i.lead, body, v);
    NoHashSkips(i.lead, body + v);
    BodyReads(i, v);
    if i.meta.Conditional? { ConditionalReads(i, v); } else { OtherReads(i, v); }
  }

  // ----- the block -----

  /** The argument texts of the `cfg_attr`s, in order. */
  function Written(items: seq<Item>): seq<string>
  {
    if items == [] then []
    else (if items[0].meta.Conditional? then [Join(ArgumentTexts(items[0].meta))] else []) + Written(items[1..])
  }

  ghost predicate ItemsOk(items: seq<Item>)
  {
    forall i :: 0 <= i < |items| ==> ItemOk(items[i])
  }

  /** The arguments of the `cfg_attr`s of a block are read back one by one, in
      order, whatever stands before, between and after them. */
  lemma {:induction false} BlockArguments(items: seq<Item>, trail: string)
    requires ItemsOk(items) && '#' !in trail
    ensures CfgArguments(ItemsText(items) + trail) == Written(items)
    decreases |items|
  {
    if items == [] {
      TrailReads(trail);
    } else {
      ItemsTail(items, trail);
      BlockArguments(items[1..], trail);
      ItemReads(items[0], ItemsText(items[1..]) + trail);
    }
  }

  lemma TrailReads(trail: string)
    requires '#' !in trail
    ensures CfgArguments("" + trail) == [] && !HasTestAttribute("" + trail)
  {
    NoHashSkips(trail, "");
    assert "" + trail == trail + "";
  }

  lemma ItemsTail(items: seq<Item>, trail: string)
    requires items != [] && ItemsOk(items)
    ensures ItemOk(items[0]) && ItemsOk(items[1..])
    ensures ItemsText(items) + trail == items[0].lead + ItemBody(items[0]) + (ItemsText(items[1..]) + trail)
  {
    Assoc(items[0].lead + ItemBody(items[0]), ItemsText(items[1..]), trail);
  }

  /** A test attribute is found in a block exactly if some item is a plain test path. */
  lemma {:induction false} BlockTestAttribute(items: seq<Item>, trail: string)
    requires ItemsOk(items) && '#' !in trail
    ensures HasTestAttribute(ItemsText(items) + trail) <==> exists i :: 0 <= i < |items| && PlainTest(items[i].meta)
    decreases |items|
  {
    if items == [] {
      TrailReads(trail);
    } else {
      var rest := items[1..];
      ItemsTail(items, trail);
      BlockTestAttribute(rest, trail);
      ItemReads(items[0], ItemsText(rest) + trail);
      if i :| 0 <= i < |rest| && PlainTest(rest[i].meta) { assert items[i + 1] == rest[i]; }
      if i :| 0 <= i < |items| && PlainTest(items[i].meta) { if i > 0 { assert rest[i - 1] == items[i]; } }
    }
  }

  lemma {:induction false} WrittenDeclares(items: seq<Item>)
    requires ItemsOk(items)
    ensures (exists a :: a in Written(items) && Declares(a))
       <==> exists i :: 0 <= i < |items| && SeenConditional(items[i].meta)
    decreases |items|
  {
    if items != [] {
      var first, rest := items[0], items[1..];
      assert ItemOk(first);
      WrittenDeclares(rest);
      if first.meta.Conditional? {
        DeclaresOfMeta(first.meta, true);
        assert Join(ArgumentTexts(first.meta)) in Written(items);
      }
      if i :| 0 <= i < |rest| && SeenConditional(rest[i].meta) { assert items[i + 1] == rest[i]; }
      if i :| 0 <= i < |items| && SeenConditional(items[i].meta) { if i > 0 { assert rest[i - 1] == items[i]; } }
    }
  }

  /** `declares_a_test` on the text of any block: some attribute is a plain test
      path, or a `cfg_attr` that is not constantly false emits one directly. */
  lemma DeclaresBlock(b: Block)
    requires BlockOk(b)
    ensures DeclaresATest(BlockText(b)) <==> Seen(b)
  {
    BlockArguments(b.items, b.trail);
    BlockTestAttribute(b.items, b.trail);
    WrittenDeclares(b.items);
  }
}
