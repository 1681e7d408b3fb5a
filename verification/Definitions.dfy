/** `definitions` of scripts/live_inventory.py: the functions of a text, with the
    attributes on the lines above each of them and those on its own line. */
module Definitions {
  import opened Text
  import opened DeclaresTest

  // ----- attributes, as the two expressions read them -----

  /** Length of `#[`, characters other than `]`, a `]` and blanks; 0 if they are not there. */
  function OneAttribute(t: string): (n: nat)
    ensures n <= |t|
  {
    if !StartsPair(t, '#', '[') then 0 else
    match Find(t[2..], "]")
    case None => 0
    case Some(k) => k + 3 + InlineLen(t[k + 3..])
  }

  /** Length of as many of them as there are. */
  function AttributeRun(t: string): (n: nat)
    ensures n <= |t|
    decreases |t|
  {
    var n := OneAttribute(t);
    if n == 0 then 0 else n + AttributeRun(t[n..])
  }

  /** How far blanks and then attributes are read. */
  function ReadLen(t: string): (n: nat)
    ensures InlineLen(t) <= n <= |t|
  {
    InlineLen(t) + AttributeRun(t[InlineLen(t)..])
  }

  /** `ATTRIBUTE_LINE.fullmatch`. */
  predicate AttributesOnly(line: string)
  {
    InlineLen(line) < ReadLen(line) == |line|
  }

  /** `line.rstrip("\r")`. */
  function RStripReturns(line: string): string
  {
    if line != "" && line[|line| - 1] == '\r' then RStripReturns(line[..|line| - 1]) else line
  }

  /** A line the backward walk goes over: blank, or attributes and nothing else. */
  predicate Passable(line: string)
  {
    var text := RStripReturns(line);
    Blank(text) || AttributesOnly(text)
  }

  // ----- the walk over the lines above -----

  /** `t.rfind("\n") + 1`. */
  function LineStart(t: string): (s: nat)
    ensures s <= |t|
  {
    if t == "" || t[|t| - 1] == '\n' then |t| else LineStart(t[..|t| - 1])
  }

  /** Where the last line of a text ends, its newline not counted. */
  function LineEnd(above: string): (e: nat)
    requires above != ""
    ensures e <= |above| && LineStart(above[..e]) < |above|
  {
    WholePrefix(above);
    if above[|above| - 1] == '\n' then |above| - 1 else |above|
  }

  /** Where the walk over the lines of `above`, from the last one up, stops. */
  function Walk(above: string): (c: nat)
    ensures c <= |above|
    decreases |above|
  {
    if above == "" then 0 else
    var e := LineEnd(above);
    var s := LineStart(above[..e]);
    if Passable(above[s..e]) then Walk(above[..s]) else |above|
  }

  // ----- the signature -----

  predicate NameChar(c: char)
  {
    !IsSpace(c) && c !in "(),;:"
  }

  function NameLen(t: string): (n: nat)
    ensures n <= |t|
  {
    if t != "" && NameChar(t[0]) then 1 + NameLen(t[1..]) else 0
  }

  /** Length of a keyword and the blanks after it, 0 if they are not there. */
  function KeywordLen(t: string, word: string): (n: nat)
    ensures n <= |t|
  {
    if !Starts(t, word) then 0 else
    var k := InlineLen(t[|word|..]);
    if k == 0 then 0 else |word| + k
  }

  /** Length of `pub` or `pub(...)` and the blanks after it, 0 if they are not there. */
  function VisibilityLen(t: string): (n: nat)
    ensures n <= |t|
  {
    if !Starts(t, "pub(") then KeywordLen(t, "pub") else
    match Find(t[4..], ")")
    case None => 0
    case Some(k) => var b := InlineLen(t[k + 5..]); if b == 0 then 0 else k + 5 + b
  }

  /** A function name, and how far its match goes. */
  datatype Signed = Signed(name: string, length: nat)

  /** A match that starts `n` characters earlier. */
  function Shifted(n: nat, s: Option<Signed>): Option<Signed>
  {
    match s case None => None case Some(s) => Some(Signed(s.name, n + s.length))
  }

  /** A name, blanks and a parenthesis. */
  function NameAt(t: string): (r: Option<Signed>)
    ensures r.Some? ==> r.value.length <= |t|
  {
    var n := NameLen(t);
    var after := t[n..];
    var k := InlineLen(after);
    if n == 0 || k == |after| || after[k] != '(' then None else Some(Signed(t[..n], n + k + 1))
  }

  /** The same without `r#`, if a name is left then. */
  function NameAndParenthesis(t: string): (r: Option<Signed>)
    ensures r.Some? ==> r.value.length <= |t|
  {
    if Starts(t, "r#") && NameLen(t[2..]) > 0 then Shifted(2, NameAt(t[2..])) else NameAt(t)
  }

  /** `fn` and what follows it. */
  function FnName(t: string): (r: Option<Signed>)
    ensures r.Some? ==> 0 < r.value.length <= |t|
  {
    var f := KeywordLen(t, "fn");
    if f == 0 then None else Shifted(f, NameAndParenthesis(t[f..]))
  }

  /** The same with an optional `async`. */
  function AsyncFn(t: string): (r: Option<Signed>)
    ensures r.Some? ==> 0 < r.value.length <= |t|
  {
    var a := KeywordLen(t, "async");
    Shifted(a, FnName(t[a..]))
  }

  /** The part of the signature after the attributes. */
  function Signature(t: string): (r: Option<Signed>)
    ensures r.Some? ==> 0 < r.value.length <= |t|
  {
    var v := VisibilityLen(t);
    Shifted(v, AsyncFn(t[v..]))
  }

  lemma StartsFirst(t: string, word: string)
    requires Starts(t, word) && word != ""
    ensures t != "" && t[0] == word[0]
  {
    assert t[..|word|][0] == t[0];
  }

  // ----- definitions -----

  /** A match of `FUNCTION`, by positions in the text. */
  datatype Match = Match(start: nat, inlineStart: nat, inlineEnd: nat, name: string, end: nat)

  predicate Within(code: string, m: Match)
  {
    m.start <= m.inlineStart <= m.inlineEnd < m.end <= |code|
  }

  function MatchAt(code: string, i: nat): (r: Option<Match>)
    requires i <= |code|
    ensures r.Some? ==> r.value.start == i && Within(code, r.value)
  {
    if i > 0 && code[i - 1] != '\n' then None else
    var t := code[i..];
    MatchOf(i, InlineLen(t), ReadLen(t), Signature(t[ReadLen(t)..]))
  }

  /** A match, from its start and the lengths of its parts. */
  function MatchOf(i: nat, indent: nat, read: nat, signature: Option<Signed>): Option<Match>
  {
    match signature
    case None => None
    case Some(n) => Some(Match(i, i + indent, i + read, n.name, i + read + n.length))
  }

  /** What a matcher answers lies in a text of `end` characters, and is not empty. */
  ghost predicate Proper(at: nat -> Option<Match>, end: nat)
  {
    forall i: nat :: at(i).Some? ==> at(i).value.start == i < at(i).value.end <= end
  }

  /** `finditer`: the matches from a position on, each search resuming where a match ends. */
  function FindIter(at: nat -> Option<Match>, from: nat, end: nat): (ms: seq<Match>)
    requires Proper(at, end) && from <= end
    ensures forall m :: m in ms ==> from <= m.start && at(m.start) == Some(m)
    decreases end - from
  {
    match at(from)
    case Some(m) => [m] + FindIter(at, m.end, end)
    case None => if from == end then [] else FindIter(at, from + 1, end)
  }

  function Matcher(code: string): (at: nat -> Option<Match>)
    ensures Proper(at, |code|)
  {
    (i: nat) => if i <= |code| then MatchAt(code, i) else None
  }

  /** `FUNCTION.finditer`, from a position on. */
  function Matches(code: string, from: nat): (ms: seq<Match>)
    requires from <= |code|
    ensures forall m :: m in ms ==> from <= m.start && Within(code, m)
  {
    FindIter(Matcher(code), from, |code|)
  }

  /** A match is found exactly if no match found before reaches past its start. */
  lemma {:induction false} FoundExactly(at: nat -> Option<Match>, from: nat, end: nat, wanted: Match)
    requires Proper(at, end) && from <= wanted.start <= end && at(wanted.start) == Some(wanted)
    ensures wanted in FindIter(at, from, end)
       <==> forall m :: m in FindIter(at, from, end) ==> !(m.start < wanted.start < m.end)
    decreases end - from
  {
    match at(from)
    case None => FoundExactly(at, from + 1, end, wanted);
    case Some(first) =>
      if first.end <= wanted.start { FoundExactly(at, first.end, end, wanted); }
      FirstOrLater(first, wanted, FindIter(at, first.end, end));
  }

  lemma FirstOrLater(first: Match, wanted: Match, rest: seq<Match>)
    requires first.start <= wanted.start && first.start < first.end && (first.start == wanted.start ==> first == wanted)
    requires forall m :: m in rest ==> first.end <= m.start
    requires first.end <= wanted.start ==> (wanted in rest <==> forall m :: m in rest ==> !(m.start < wanted.start < m.end))
    ensures wanted in [first] + rest <==> forall m :: m in [first] + rest ==> !(m.start < wanted.start < m.end)
  {
    forall m ensures m in [first] + rest <==> m == first || m in rest {
      assert ([first] + rest)[0] == first;
      if m in rest { var k :| 0 <= k < |rest| && rest[k] == m; assert ([first] + rest)[k + 1] == m; }
    }
  }

  datatype Definition = Definition(name: string, attributes: string, inline: string, attributesStart: nat, inlineEnd: nat)

  function DefinitionOf(code: string, m: Match): Definition
    requires Within(code, m)
  {
    var c := Walk(code[..m.start]);
    Definition(m.name, code[c..m.inlineStart], code[m.inlineStart..m.inlineEnd], c, m.inlineEnd)
  }

  function DefinitionsOf(code: string, ms: seq<Match>): (r: seq<Definition>)
    requires forall m :: m in ms ==> Within(code, m)
    ensures |r| == |ms|
  {
    if ms == [] then [] else [DefinitionOf(code, ms[0])] + DefinitionsOf(code, ms[1..])
  }

  /** `definitions`. */
  function DefinitionsIn(code: string): seq<Definition>
  {
    DefinitionsOf(code, Matches(code, 0))
  }

  predicate IsTestDefinition(d: Definition, isIdentifier: string -> bool)
  {
    DeclaresATest(d.attributes + d.inline) && isIdentifier(d.name)
  }

  /** The names of the definitions that pass a test. */
  function NamesWhere(ds: seq<Definition>, test: Definition -> bool): seq<string>
  {
    if ds == [] then [] else (if test(ds[0]) then [ds[0].name] else []) + NamesWhere(ds[1..], test)
  }

  /** `_annotated_tests`, of the masked and flattened text. */
  function TestNames(code: string, isIdentifier: string -> bool): seq<string>
  {
    NamesWhere(DefinitionsIn(code), d => IsTestDefinition(d, isIdentifier))
  }

  /** A name is listed exactly if some match of it that is found is a test. */
  lemma NamesExactly(code: string, isIdentifier: string -> bool, name: string)
    ensures name in TestNames(code, isIdentifier)
       <==> exists m :: m in Matches(code, 0) && m.name == name && IsTestDefinition(DefinitionOf(code, m), isIdentifier)
  {
    NamesOfMatches(code, Matches(code, 0), d => IsTestDefinition(d, isIdentifier), name);
  }

  lemma {:induction false} NamesOfMatches(code: string, ms: seq<Match>, test: Definition -> bool, name: string)
    requires forall m :: m in ms ==> Within(code, m)
    ensures name in NamesWhere(DefinitionsOf(code, ms), test)
       <==> exists m :: m in ms && m.name == name && test(DefinitionOf(code, m))
    decreases |ms|
  {
    if ms != [] {
      NamesOfMatches(code, ms[1..], test, name);
      assert DefinitionsOf(code, ms)[1..] == DefinitionsOf(code, ms[1..]);
      forall m ensures m in ms <==> m == ms[0] || m in ms[1..] {}
    }
  }

  // ----- one line, and one match -----

  /** A text that ends where a line starts. */
  predicate AtLineStart(t: string)
  {
    t == "" || t[|t| - 1] == '\n'
  }

  lemma {:induction false} LineStartAt(t: string, line: string)
    requires AtLineStart(t) && '\n' !in line
    ensures LineStart(t + line) == |t|
    decreases |line|
  {
    if line == "" {
      assert t + line == t;
    } else {
      var n := |line| - 1;
      assert line[n] in line;
      assert (t + line)[..|t + line| - 1] == t + line[..n];
      LineStartAt(t, line[..n]);
    }
  }

  lemma LineSlices(t: string, line: string)
    ensures var above, e := t + (line + "\n"), |t| + |line|;
            && |above| == e + 1 && above[e] == '\n'
            && above[..e] == t + line && above[|t|..e] == line && above[..|t|] == t
  {}

  lemma LineEnds(t: string, line: string)
    ensures LineEnd(t + (line + "\n")) == |t| + |line|
  {
    LineSlices(t, line);
  }

  lemma WalkBetween(t: string, line: string, above: string)
    requires |above| == |t| + |line| + 1 && LineEnd(above) == |t| + |line| && LineStart(above[..|t| + |line|]) == |t|
    requires above[|t|..|t| + |line|] == line && above[..|t|] == t
    ensures Walk(above) == if Passable(line) then Walk(t) else |above|
  {
    WalkUnfolds(above, |t| + |line|, |t|);
  }

  /** The walk over one line more. */
  lemma WalkLine(t: string, line: string)
    requires AtLineStart(t) && '\n' !in line
    ensures Walk(t + (line + "\n")) == if Passable(line) then Walk(t) else |t| + |line| + 1
  {
    LineSlices(t, line);
    LineStartAt(t, line);
    LineEnds(t, line);
    WalkBetween(t, line, t + (line + "\n"));
  }

  lemma MatchParts(code: string, i: nat, t: string)
    requires i <= |code| && code[i..] == t && (i == 0 || code[i - 1] == '\n')
    ensures MatchAt(code, i) == MatchOf(i, InlineLen(t), ReadLen(t), Signature(t[ReadLen(t)..]))
  {}

  /** The match has the name of the signature, and ends where it ends. */
  predicate ReadsSignature(m: Match, s: Option<Signed>)
  {
    s.Some? && m.name == s.value.name && m.end == m.inlineEnd + s.value.length
  }

  /** A line is matched with `n` characters in front of the signature exactly if so many are read of it. */
  lemma MatchRead(code: string, i: nat, t: string, n: nat, rest: string)
    requires i <= |code| && code[i..] == t && (i == 0 || code[i - 1] == '\n')
    requires n <= |t| && t[n..] == rest
    ensures var m := MatchAt(code, i);
            && (m.Some? && m.value.inlineEnd == i + n <==> ReadLen(t) == n && Signature(rest).Some?)
            && (m.Some? && m.value.inlineEnd == i + n ==> ReadsSignature(m.value, Signature(rest)))
  {
    MatchParts(code, i, t);
  }

  lemma MatchLine(above: string, line: string, rest: string)
    requires AtLineStart(above)
    ensures var m := MatchAt(above + (line + rest), |above|);
            && (m.Some? && m.value.inlineEnd == |above| + |line| <==> ReadLen(line + rest) == |line| && Signature(rest).Some?)
            && (m.Some? && m.value.inlineEnd == |above| + |line| ==> ReadsSignature(m.value, Signature(rest)))
  {
    SuffixAt(above, line + rest);
    SuffixAt(line, rest);
    MatchRead(above + (line + rest), |above|, line + rest, |line|, rest);
  }

  lemma SuffixAt(u: string, v: string)
    ensures (u + v)[|u|..] == v && (u + v)[..|u|] == u && (u != "" ==> (u + v)[|u| - 1] == u[|u| - 1])
  {}

  /** What a definition holds is the text from where the walk stops to the end of the attributes of its line. */
  lemma DefinitionParts(code: string, m: Match, above: string)
    requires Within(code, m) && code[..m.start] == above
    ensures var d, c := DefinitionOf(code, m), Walk(above);
            && d.name == m.name && c <= m.inlineEnd && d.attributes + d.inline == code[c..m.inlineEnd]
            && d.attributesStart == c && d.inlineEnd == m.inlineEnd
  {
    JoinSlices(code, Walk(above), m.inlineStart, m.inlineEnd);
  }

  lemma JoinSlices(t: string, a: nat, b: nat, c: nat)
    requires a <= b <= c <= |t|
    ensures t[a..b] + t[b..c] == t[a..c]
  {}

  lemma TestExactly(d: Definition, isIdentifier: string -> bool, t: string, declares: bool)
    requires d.attributes + d.inline == t && (DeclaresATest(t) <==> declares)
    ensures IsTestDefinition(d, isIdentifier) <==> declares && isIdentifier(d.name)
  {}

  /** A match that no match found before reaches past is found. */
  lemma FoundAt(code: string, m: Match)
    requires m.start <= |code| && MatchAt(code, m.start) == Some(m)
    requires forall other :: other in Matches(code, 0) ==> !(other.start < m.start < other.end)
    ensures m in Matches(code, 0)
  {
    FoundExactly(Matcher(code), 0, |code|, m);
  }

  lemma NamedAt(code: string, m: Match, test: Definition -> bool)
    requires m in Matches(code, 0) && test(DefinitionOf(code, m))
    ensures m.name in NamesWhere(DefinitionsIn(code), test)
  {
    NamesOfMatches(code, Matches(code, 0), test, m.name);
  }

  // ----- the loops -----

  /** The walk has got from `start` down to `cursor`. */
  ghost predicate Walking(code: string, start: nat, cursor: nat)
  {
    cursor <= start <= |code| && Walk(code[..start]) == Walk(code[..cursor])
  }

  /** One line of the walk, from `s` to `e`. */
  lemma WalkTurn(code: string, start: nat, cursor: nat, e: nat, s: nat)
    requires Walking(code, start, cursor) && cursor > 0
    requires e == (if code[cursor - 1] == '\n' then cursor - 1 else cursor) && s == LineStart(code[..e])
    ensures s < cursor && s <= e <= cursor
    ensures if Passable(code[s..e]) then Walking(code, start, s) else Walk(code[..start]) == cursor
  {
    LastLine(code, cursor, e, s);
    WalkUnfolds(code[..cursor], e, s);
  }

  lemma WalkUnfolds(above: string, e: nat, s: nat)
    requires above != "" && e == LineEnd(above) && s == LineStart(above[..e])
    ensures Walk(above) == if Passable(above[s..e]) then Walk(above[..s]) else |above|
  {}

  lemma LastLine(code: string, cursor: nat, e: nat, s: nat)
    requires 0 < cursor <= |code|
    requires e == (if code[cursor - 1] == '\n' then cursor - 1 else cursor) && s == LineStart(code[..e])
    ensures var above := code[..cursor];
            && e == LineEnd(above) && s == LineStart(above[..e]) < cursor && s <= e
            && above[s..e] == code[s..e] && above[..s] == code[..s]
  {
    var above := code[..cursor];
    PrefixSlices(code, e, cursor);
    PrefixSlices(code, s, cursor);
    assert above[s..e] == code[s..e];
  }

  lemma PrefixSlices(t: string, e: nat, cursor: nat)
    requires e <= cursor <= |t|
    ensures t[..cursor][..e] == t[..e]
  {}

  /** The definitions before `index` are in `found`. */
  ghost predicate Defining(code: string, found: seq<Definition>, index: nat)
  {
    index <= |code| && DefinitionsIn(code) == found + DefinitionsOf(code, Matches(code, index))
  }

  lemma DefiningStarts(code: string)
    ensures Defining(code, [], 0)
  {
    assert [] + DefinitionsIn(code) == DefinitionsIn(code);
  }

  lemma DefiningSkip(code: string, found: seq<Definition>, index: nat)
    requires Defining(code, found, index) && index < |code| && MatchAt(code, index) == None
    ensures Defining(code, found, index + 1)
  {}

  lemma DefiningMatch(code: string, found: seq<Definition>, index: nat, d: Definition)
    requires Defining(code, found, index) && MatchAt(code, index).Some?
    requires d == DefinitionOf(code, MatchAt(code, index).value)
    ensures Defining(code, found + [d], MatchAt(code, index).value.end)
  {
    var m := MatchAt(code, index).value;
    var rest := Matches(code, m.end);
    assert Matches(code, index)[1..] == rest;
    Assoc(found, [d], DefinitionsOf(code, rest));
  }

  lemma AllDefined(code: string, found: seq<Definition>)
    requires Defining(code, found, |code|)
    ensures found == DefinitionsIn(code)
  {
    EndIsNoMatch(code);
  }

  lemma EndIsNoMatch(code: string)
    ensures MatchAt(code, |code|) == None
  {
    assert code[|code|..] == "";
  }

  lemma {:induction false} NamesSnoc(ds: seq<Definition>, d: Definition, test: Definition -> bool)
    ensures NamesWhere(ds + [d], test) == NamesWhere(ds, test) + (if test(d) then [d.name] else [])
    decreases |ds|
  {
    if ds == [] {
      assert ds + [d] == [d] && [d][1..] == [];
    } else {
      assert (ds + [d])[1..] == ds[1..] + [d];
      NamesSnoc(ds[1..], d, test);
      Assoc(if test(ds[0]) then [ds[0].name] else [], NamesWhere(ds[1..], test), if test(d) then [d.name] else []);
    }
  }
}
