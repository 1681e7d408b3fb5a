/** `cfg_attr_arguments` and `declares_a_test` of scripts/live_inventory.py. */
module DeclaresTest {
  import opened Text
  import opened Balanced
  import opened Attributes
  import opened CfgPredicate

  // ----- the recognisers, as functions of the text still to be read -----

  predicate Inline(c: char)
  {
    c == ' ' || c == '\t'
  }

  function InlineLen(t: string): (n: nat)
    ensures n <= |t|
  {
    if t != "" && Inline(t[0]) then 1 + InlineLen(t[1..]) else 0
  }

  const CFG_ATTR := "cfg_attr"

  // Length of `#[ cfg_attr` at the start of `t`, 0 if it is not there.
  function KeywordEnd(t: string): (n: nat)
    ensures n <= |t|
  {
    if !StartsPair(t, '#', '[') then 0 else
    var a := 2 + InlineLen(t[2..]);
    if Starts(t[a..], CFG_ATTR) then a + 8 else 0
  }

  // Length of a match of `#[ cfg_attr (` at the start of `t`, 0 if there is none.
  function CfgStart(t: string): (n: nat)
    ensures n <= |t|
  {
    var k := KeywordEnd(t);
    if k == 0 then 0 else
    var b := k + InlineLen(t[k..]);
    if b < |t| && t[b] == '(' then b + 1 else 0
  }

  /** The argument text of a `cfg_attr`, read up to its balancing parenthesis. */
  function Argument(t: string): string
  {
    match CloseAt(t, '(', ')', 1) case None => t case Some(k) => t[..k]
  }

  function CfgArguments(t: string): seq<string>
    decreases |t|
  {
    if t == "" then [] else
    var n := CfgStart(t);
    if n == 0 then CfgArguments(t[1..]) else [Argument(t[n..])] + CfgArguments(t[n..])
  }

  predicate WordChar(c: char)
  {
    'a' <= c <= 'z' || 'A' <= c <= 'Z' || '0' <= c <= '9' || c == '_'
  }

  function WordLen(t: string): (n: nat)
    ensures n <= |t|
  {
    if t != "" && WordChar(t[0]) then 1 + WordLen(t[1..]) else 0
  }

  /** What is left after the blanks: inline blanks inside an attribute, any blanks in an emitted one. */
  function Skip(t: string, inside: bool): (r: string)
    ensures |r| <= |t|
  {
    LStripShorter(t);
    if inside then t[InlineLen(t)..] else LStrip(t)
  }

  /** A path whose last segment is `test`, in an attribute (`inside`: then `]`
      or `(` follows) or as an emitted attribute (then `(` or the end follows). */
  predicate TestPath(t: string, inside: bool)
    decreases |t|
  {
    var n := WordLen(t);
    if n == 0 then false else
    var rest := Skip(t[n..], inside);
    if StartsPair(rest, ':', ':') then TestPath(Skip(rest[2..], inside), inside)
    else t[..n] == "test" && if rest == "" then !inside else rest[0] == '(' || (inside && rest[0] == ']')
  }

  /** A test attribute starts at the start of `t`. */
  predicate TestAt(t: string)
  {
    StartsPair(t, '#', '[') && TestPath(Skip(t[2..], true), true)
  }

  predicate HasTestAttribute(t: string)
  {
    t != "" && (TestAt(t) || HasTestAttribute(t[1..]))
  }

  predicate EmitsTest(parts: seq<string>)
  {
    exists i :: 0 <= i < |parts| && TestPath(Strip(parts[i]), false)
  }

  /** One `cfg_attr` declares a test: predicate not constantly false, a test emitted. */
  predicate Declares(argument: string)
  {
    var parts := Split(argument, 0);
    PredicateTruth(parts[0]) != No && EmitsTest(parts[1..])
  }

  predicate DeclaresATest(t: string)
  {
    HasTestAttribute(t) || exists a :: a in CfgArguments(t) && Declares(a)
  }

  ghost predicate Reading(attributes: string, found: seq<string>, index: nat)
  {
    index <= |attributes| && CfgArguments(attributes) == found + CfgArguments(attributes[index..])
  }

  /** The argument that starts at `i`. */
  ghost predicate IsArgument(s: string, i: nat, argument: string)
  {
    i <= |s| && argument == Argument(s[i..])
  }

  /** What happens at `i`: no match (`n` is 0), or a match of `n` characters and its argument. */
  ghost predicate MatchesAt(s: string, i: nat, n: nat)
  {
    && i < |s|
    && if n == 0 then CfgArguments(s[i..]) == CfgArguments(s[i + 1..])
       else i + n <= |s| && CfgArguments(s[i..]) == [Argument(s[i + n..])] + CfgArguments(s[i + n..])
  }

  lemma CfgUnfolds(t: string)
    requires t != ""
    ensures CfgStart(t) == 0 ==> CfgArguments(t) == CfgArguments(t[1..])
    ensures var n := CfgStart(t); n > 0 ==> CfgArguments(t) == [Argument(t[n..])] + CfgArguments(t[n..])
  {}

  lemma ReadingSkip(attributes: string, found: seq<string>, index: nat)
    requires Reading(attributes, found, index) && MatchesAt(attributes, index, 0)
    ensures Reading(attributes, found, index + 1)
  {}

  lemma ReadingMatch(attributes: string, found: seq<string>, index: nat, n: nat, argument: string)
    requires Reading(attributes, found, index) && n > 0 && MatchesAt(attributes, index, n)
    requires IsArgument(attributes, index + n, argument)
    ensures Reading(attributes, found + [argument], index + n)
  {
    Assoc(found, [argument], CfgArguments(attributes[index + n..]));
  }

  lemma LastRead(attributes: string, found: seq<string>)
    requires Reading(attributes, found, |attributes|)
    ensures found == CfgArguments(attributes)
  {
    assert attributes[|attributes|..] == "";
  }

  // ----- layout -----

  /** Spaces and tabs only. */
  predicate AllInline(t: string)
  {
    forall i :: 0 <= i < |t| ==> t[i] == ' ' || t[i] == '\t'
  }

  /** No `cfg_attr` starts inside `t`. */
  predicate NoStart(t: string)
  {
    forall k :: 0 <= k < |t| ==> CfgStart(t[k..]) == 0
  }

  ghost predicate ParenBalanced(t: string)
  {
    exists w: Word :: PlainOnly(w, '(', ')') && Print(w, '(', ')') == t
  }

  // ----- reading arguments back -----

  /** A text the parenthesis scan passes over at any depth. */
  ghost predicate Skips(t: string)
  {
    forall u: string, d: int :: d >= 1 ==>
      CloseAt(t + u, '(', ')', d) == (match CloseAt(u, '(', ')', d) case None => None case Some(k) => Some(|t| + k))
  }

  lemma BalancedSkips(t: string)
    requires ParenBalanced(t)
    ensures Skips(t)
  {
    var w: Word :| PlainOnly(w, '(', ')') && Print(w, '(', ')') == t;
    forall u: string, d: int | d >= 1
      ensures CloseAt(t + u, '(', ')', d) == (match CloseAt(u, '(', ')', d) case None => None case Some(k) => Some(|t| + k))
    {
      ScanSkipsWord(w, '(', ')', u, d);
    }
  }

  lemma SkipsConcat(s: string, t: string)
    requires Skips(s) && Skips(t)
    ensures Skips(s + t)
  {
    forall u: string, d: int | d >= 1
      ensures CloseAt(s + t + u, '(', ')', d) == (match CloseAt(u, '(', ')', d) case None => None case Some(k) => Some(|s + t| + k))
    {
      assert s + t + u == s + (t + u);
    }
  }

  lemma {:induction false} NoParenSkips(t: string)
    requires '(' !in t && ')' !in t
    ensures Skips(t)
  {
    var w := NoParenWord(t);
    BalancedSkips(t);
  }

  lemma {:induction false} NoParenWord(t: string) returns (w: Word)
    requires '(' !in t && ')' !in t
    ensures PlainOnly(w, '(', ')') && Print(w, '(', ')') == t
  {
    if t == "" {
      w := Empty;
    } else {
      var rest := NoParenWord(t[1..]);
      w := Plain(t[0], rest);
      assert t[0] in t;
    }
  }

  lemma ParenthesizedSkips(t: string)
    requires Skips(t)
    ensures Skips("(" + t + ")")
  {
    forall u: string, d: int | d >= 1
      ensures CloseAt("(" + t + ")" + u, '(', ')', d) == (match CloseAt(u, '(', ')', d) case None => None case Some(k) => Some(|t| + 2 + k))
    {
      assert ("(" + t + ")" + u)[1..] == t + (")" + u);
      assert (")" + u)[1..] == u;
      assert CloseAt(")" + u, '(', ')', d + 1) == Shift(CloseAt(u, '(', ')', d));
    }
  }

  lemma {:induction false} JoinSkips(parts: seq<string>)
    requires parts != [] && forall p :: p in parts ==> Skips(p)
    ensures Skips(Join(parts))
    decreases |parts|
  {
    if |parts| > 1 {
      JoinSkips(parts[1..]);
      NoParenSkips(",");
      SkipsConcat(parts[0], ",");
      SkipsConcat(parts[0] + ",", Join(parts[1..]));
    }
  }

  /** The scan stops at the parenthesis after a text it passes over. */
  lemma ArgumentOfSkipped(w: string, rest: string)
    requires Skips(w)
    ensures Argument(w + ")" + rest) == w
  {
    assert w + ")" + rest == w + (")" + rest);
    assert CloseAt(")" + rest, '(', ')', 1) == Some(0);
    assert (w + ")" + rest)[..|w|] == w;
  }

  lemma {:induction false} InlineLenAt(g: string, t: string)
    requires AllInline(g) && (t == "" || !Inline(t[0]))
    ensures InlineLen(g + t) == |g|
    decreases |g|
  {
    if g == "" {
      assert g + t == t;
    } else {
      assert (g + t)[1..] == g[1..] + t;
      InlineLenAt(g[1..], t);
    }
  }

  /** A character no match contains past its start. */
  predicate Stop(t: string)
  {
    t == "" || t[0] in ")]#"
  }

  lemma {:induction false} InlineLenStops(u: string, v: string)
    requires Stop(v)
    ensures InlineLen(u + v) == InlineLen(u)
    decreases |u|
  {
    if u == "" {
      assert u + v == v;
    } else {
      assert (u + v)[1..] == u[1..] + v;
      InlineLenStops(u[1..], v);
    }
  }

  lemma KeywordStops(u: string, v: string)
    requires Stop(v)
    ensures Starts(u + v, CFG_ATTR) <==> Starts(u, CFG_ATTR)
  {
    var t := u + v;
    if |u| >= 8 {
      assert t[..8] == u[..8];
    } else if |t| >= 8 {
      assert t[..8][|u|] == v[0];
    }
  }

  lemma KeywordEndStops(u: string, v: string)
    requires u != "" && Stop(v)
    ensures KeywordEnd(u + v) == KeywordEnd(u)
  {
    var t := u + v;
    if StartsPair(u, '#', '[') {
      assert t[2..] == u[2..] + v;
      InlineLenStops(u[2..], v);
      var a := 2 + InlineLen(u[2..]);
      assert t[a..] == u[a..] + v;
      KeywordStops(u[a..], v);
    }
  }

  /** A match never crosses a stop character. */
  lemma CfgStartStops(u: string, v: string)
    requires u != "" && Stop(v)
    ensures CfgStart(u + v) == CfgStart(u)
  {
    var t, k := u + v, KeywordEnd(u);
    KeywordEndStops(u, v);
    if k > 0 {
      assert t[k..] == u[k..] + v;
      InlineLenStops(u[k..], v);
    }
  }

  /** Text without a start contributes no argument. */
  lemma {:induction false} NoStartNoArgument(u: string, v: string)
    requires NoStart(u) && Stop(v)
    ensures CfgArguments(u + v) == CfgArguments(v)
    decreases |u|
  {
    if u == "" {
      assert u + v == v;
    } else {
      assert u[0..] == u;
      CfgStartStops(u, v);
      assert (u + v)[1..] == u[1..] + v;
      forall k | 0 <= k < |u[1..]| ensures CfgStart(u[1..][k..]) == 0 { assert u[1..][k..] == u[k + 1..]; }
      NoStartNoArgument(u[1..], v);
    }
  }

  /** The match at an attribute depends on what follows its first blanks. */
  lemma StartAfterGap(gap: string, rest: string)
    requires AllInline(gap) && rest != "" && !Inline(rest[0])
    ensures var t := "#[" + (gap + rest);
            CfgStart(t) == if !Starts(rest, CFG_ATTR) then 0 else
              var after := rest[8..];
              var k := InlineLen(after);
              if k < |after| && after[k] == '(' then 11 + |gap| + k else 0
  {
    var t := "#[" + (gap + rest);
    var a := 2 + |gap|;
    assert t[2..] == gap + rest;
    InlineLenAt(gap, rest);
    assert t[a..] == rest;
    if Starts(rest, CFG_ATTR) { assert t[a + 8..] == rest[8..]; }
  }

  lemma BodyAfter(gap: string, name: string, gap2: string, t: string)
    ensures ("#[" + (gap + (name + (gap2 + ("(" + t)))))[3 + |gap| + |name| + |gap2|..] == t
  {
    var all := "#[" + (gap + (name + (gap2 + ("(" + t))));
    assert all[2..] == gap + (name + (gap2 + ("(" + t)));
    assert all[2 + |gap|..] == name + (gap2 + ("(" + t));
    assert all[2 + |gap| + |name|..] == gap2 + ("(" + t);
  }

  lemma Spread(a: string, b: string, c: string, d: string, e: string)
    ensures a + b + c + d + "(" + e == a + (b + (c + (d + ("(" + e))))
  {
    Assoc(a + b + c, d, "(" + e);
    Assoc(a + b, c, d + ("(" + e));
    Assoc(a, b, c + (d + ("(" + e)));
    Assoc(a + b + c + d, "(", e);
  }

  lemma CfgStartOfAttr(g: string, g2: string, rest: string)
    requires AllInline(g) && AllInline(g2)
    ensures CfgStart("#[" + g + CFG_ATTR + g2 + "(" + rest) == |g| + |g2| + 11
    ensures ("#[" + g + CFG_ATTR + g2 + "(" + rest)[|g| + |g2| + 11..] == rest
  {
    Spread("#[", g, CFG_ATTR, g2, rest);
    CallStart(g, g2, rest);
  }

  lemma CallStart(gap: string, gap2: string, rest: string)
    requires AllInline(gap) && AllInline(gap2)
    ensures var t := "#[" + (gap + (CFG_ATTR + (gap2 + ("(" + rest))));
            CfgStart(t) == 11 + |gap| + |gap2| && t[11 + |gap| + |gap2|..] == rest
  {
    var after := gap2 + ("(" + rest);
    var t := CFG_ATTR + after;
    StartAfterGap(gap, t);
    assert t[..8] == CFG_ATTR && t[8..] == after;
    InlineLenAt(gap2, "(" + rest);
    assert after[|gap2|] == '(';
    BodyAfter(gap, CFG_ATTR, gap2, rest);
  }

  /** The argument of a `cfg_attr` is read back, and reading goes on after it. */
  lemma OneArgument(g: string, g2: string, w: string, tail: string, rest: string)
    requires AllInline(g) && AllInline(g2) && Skips(w) && NoStart(w) && NoStart(tail) && Stop(rest)
    ensures CfgArguments("#[" + g + CFG_ATTR + g2 + "(" + w + ")" + tail + rest) == [w] + CfgArguments(rest)
  {
    var after := w + ")" + (tail + rest);
    var t := "#[" + g + CFG_ATTR + g2 + "(" + after;
    assert "#[" + g + CFG_ATTR + g2 + "(" + w + ")" + tail + rest == t;
    CfgStartOfAttr(g, g2, after);
    ArgumentOfSkipped(w, tail + rest);
    RestOfAttr(w, tail, rest);
    CfgMatch(t, after);
  }

  lemma CfgMatch(t: string, after: string)
    requires CfgStart(t) > 0 && t[CfgStart(t)..] == after
    ensures CfgArguments(t) == [Argument(after)] + CfgArguments(after)
  {}

  lemma RestOfAttr(w: string, tail: string, rest: string)
    requires NoStart(w) && NoStart(tail) && Stop(rest)
    ensures CfgArguments(w + ")" + (tail + rest)) == CfgArguments(rest)
  {
    var u := ")" + (tail + rest);
    assert w + ")" + (tail + rest) == w + u;
    NoStartNoArgument(w, u);
    assert CfgStart(u) == 0 && u[1..] == tail + rest;
    NoStartNoArgument(tail, rest);
  }

  function WordText(w: Word): string
  {
    "#[" + CFG_ATTR + "(" + Print(w, '(', ')') + ")]"
  }

  /** `#[cfg_attr(w)]` for one balanced word after the other. */
  function WordsText(words: seq<Word>): string
  {
    if words == [] then "" else WordText(words[0]) + WordsText(words[1..])
  }

  function Prints(words: seq<Word>): seq<string>
  {
    if words == [] then [] else [Print(words[0], '(', ')')] + Prints(words[1..])
  }

  lemma WordIsReadBack(w: Word, rest: string)
    requires PlainOnly(w, '(', ')') && NoStart(Print(w, '(', ')')) && Stop(rest)
    ensures CfgArguments(WordText(w) + rest) == [Print(w, '(', ')')] + CfgArguments(rest)
  {
    var p := Print(w, '(', ')');
    BalancedSkips(p);
    assert NoStart("]");
    OneArgument("", "", p, "]", rest);
    Spelled(p, rest);
  }

  lemma Spelled(p: string, rest: string)
    ensures "#[" + "" + CFG_ATTR + "" + "(" + p + ")" + "]" + rest == "#[" + CFG_ATTR + "(" + p + ")]" + rest
  {
    assert "#[" + "" == "#[" && "#[" + CFG_ATTR + "" == "#[" + CFG_ATTR;
    Assoc("#[" + CFG_ATTR + "(" + p, ")", "]");
  }

  lemma WordsStop(words: seq<Word>)
    ensures Stop(WordsText(words))
  {
    if words != [] { assert WordsText(words)[0] == '#'; }
  }

  /** For any balanced words without a `cfg_attr` inside, exactly those words are read back, in order. */
  lemma {:induction false} WordsAreReadBack(words: seq<Word>)
    requires forall w :: w in words ==> PlainOnly(w, '(', ')') && NoStart(Print(w, '(', ')'))
    ensures CfgArguments(WordsText(words)) == Prints(words)
    decreases |words|
  {
    if words != [] {
      WordsAreReadBack(words[1..]);
      WordsStop(words[1..]);
      WordIsReadBack(words[0], WordsText(words[1..]));
    }
  }
}
