/** Function signatures as syntax, and which of them the pattern of `definitions` reads. */
module Signatures {
  import opened Text
  import opened DeclaresTest
  import opened Definitions

  /** `pub`, or `pub(...)` with blanks before the parenthesis. */
  datatype Visibility = Private | Public(gap: string) | Restricted(before: string, scope: string, gap: string)

  datatype Keyword = Const | Async | Unsafe | Extern
  datatype Qualifier = Qualifier(word: Keyword, gap: string)

  /** A signature up to its parenthesis; the ABI string of an `extern` is part of the blanks after it. */
  datatype Head = Head(visibility: Visibility, qualifiers: seq<Qualifier>, gap: string,
                       raw: bool, name: string, generics: string, blanks: string)

  function VisibilityText(v: Visibility): string
  {
    match v
    case Private => ""
    case Public(gap) => "pub" + gap
    case Restricted(before, scope, gap) => "pub" + (before + ("(" + (scope + (")" + gap))))
  }

  function KeywordText(w: Keyword): string
  {
    match w
    case Const => "const"
    case Async => "async"
    case Unsafe => "unsafe"
    case Extern => "extern"
  }

  function QualifiersText(qs: seq<Qualifier>): string
  {
    if qs == [] then "" else KeywordText(qs[0].word) + (qs[0].gap + QualifiersText(qs[1..]))
  }

  function NameText(h: Head): string
  {
    (if h.raw then "r#" else "") + (h.name + (h.generics + (h.blanks + "(")))
  }

  function FnText(h: Head): string
  {
    "fn" + (h.gap + NameText(h))
  }

  function HeadText(h: Head): string
  {
    VisibilityText(h.visibility) + (QualifiersText(h.qualifiers) + FnText(h))
  }

  /** Blanks that have to be there. */
  predicate Gap(t: string)
  {
    t != "" && Blank(t)
  }

  predicate VisibilityOk(v: Visibility)
  {
    match v
    case Private => true
    case Public(gap) => Gap(gap)
    case Restricted(before, scope, gap) => Blank(before) && ')' !in scope && Gap(gap)
  }

  /** Letters, digits and `_`; beyond ASCII anything but a space. */
  predicate FunctionName(t: string)
  {
    t != "" && forall i :: 0 <= i < |t| ==>
      'a' <= t[i] <= 'z' || 'A' <= t[i] <= 'Z' || '0' <= t[i] <= '9' || t[i] == '_' || (t[i] as int > 127 && !IsSpace(t[i]))
  }

  predicate HeadOk(h: Head)
  {
    && VisibilityOk(h.visibility) && (forall k :: 0 <= k < |h.qualifiers| ==> Gap(h.qualifiers[k].gap))
    && Gap(h.gap) && FunctionName(h.name) && (h.generics != "" ==> h.generics[0] == '<') && Blank(h.blanks)
  }

  // ----- what is read -----

  /** `pub` and its parenthesis are together, and the blanks are spaces and tabs. */
  predicate VisibilityReadable(v: Visibility)
  {
    match v
    case Private => true
    case Public(gap) => AllInline(gap)
    case Restricted(before, _, gap) => before == "" && AllInline(gap)
  }

  predicate QualifiersReadable(qs: seq<Qualifier>)
  {
    |qs| <= 1 && forall k :: 0 <= k < |qs| ==> qs[k].word == Async && AllInline(qs[k].gap)
  }

  /** No qualifier but `async`, no generics, spaces and tabs only. */
  predicate Readable(h: Head)
  {
    && VisibilityReadable(h.visibility) && QualifiersReadable(h.qualifiers)
    && AllInline(h.gap) && h.generics == "" && AllInline(h.blanks)
  }

  /** Spaces and tabs as far as they go. */
  lemma {:induction false} InlineStops(g: string, t: string)
    requires Blank(g) && (t == "" || !IsSpace(t[0]))
    ensures var k := InlineLen(g + t);
            && k <= |g| && (k == |g| <==> AllInline(g))
            && (k < |g| ==> IsSpace((g + t)[k]))
    decreases |g|
  {
    if g == "" {
      assert g + t == t;
    } else {
      assert (g + t)[1..] == g[1..] + t;
      InlineStops(g[1..], t);
      assert AllInline(g) <==> Inline(g[0]) && AllInline(g[1..]) by {
        if Inline(g[0]) && AllInline(g[1..]) {
          forall k | 0 <= k < |g| ensures Inline(g[k]) { if k > 0 { assert g[k] == g[1..][k - 1]; } }
        }
      }
    }
  }

  lemma StartsWithKeyword(word: string, t: string)
    ensures Starts(word + t, word) && (word + t)[|word|..] == t
  {}

  /** A keyword is read with its blanks if they are inline; otherwise what is
      left starts with the keyword, or with a blank. */
  lemma KeywordReads(word: string, gap: string, t: string) returns (n: nat, left: string)
    requires word != "" && Gap(gap) && t != "" && !IsSpace(t[0])
    ensures n == KeywordLen(word + (gap + t), word) && left == (word + (gap + t))[n..]
    ensures if AllInline(gap) then n == |word| + |gap| && left == t
            else left != "" && if n == 0 then left[0] == word[0] else IsSpace(left[0])
  {
    var u := word + (gap + t);
    StartsWithKeyword(word, gap + t);
    InlineStops(gap, t);
    var k := InlineLen(gap + t);
    n := KeywordLen(u, word);
    left := u[n..];
    assert u[|word| + k..] == (gap + t)[k..];
    if AllInline(gap) { assert (gap + t)[|gap|..] == t; }
  }

  lemma OtherKeyword(t: string, word: string)
    requires word != "" && t != "" && t[0] != word[0]
    ensures KeywordLen(t, word) == 0
  {
    if Starts(t, word) { StartsFirst(t, word); }
  }

  /** Nothing that starts with another letter is read. */
  lemma NoFn(t: string)
    requires t != "" && t[0] != 'f'
    ensures FnName(t) == None
  {
    OtherKeyword(t, "fn");
  }

  lemma NoAsyncFn(t: string)
    requires t != "" && t[0] != 'f' && t[0] != 'a'
    ensures AsyncFn(t) == None
  {
    OtherKeyword(t, "async");
    assert t[0..] == t;
    NoFn(t);
  }

  // ----- the name -----

  lemma {:induction false} NameLenOf(name: string, t: string)
    requires forall k :: 0 <= k < |name| ==> NameChar(name[k])
    ensures NameLen(name + t) == |name| + NameLen(t)
    decreases |name|
  {
    if name == "" {
      assert name + t == t;
    } else {
      assert (name + t)[1..] == name[1..] + t;
      NameLenOf(name[1..], t);
    }
  }

  lemma IdentifierIsName(name: string)
    requires FunctionName(name)
    ensures name != "" && forall k :: 0 <= k < |name| ==> NameChar(name[k])
  {}

  lemma NameCut(u: string, name: string, t: string)
    requires |u| >= |name| > 0 && u[..|name|] == name && u[|name|..] == t && NameLen(u) == |name|
    ensures var k := InlineLen(t);
            NameAt(u) == if k == |t| || t[k] != '(' then None else Some(Signed(name, |name| + k + 1))
  {
    hide InlineLen, NameLen;
  }

  lemma NameThen(name: string, t: string)
    requires name != "" && (forall k :: 0 <= k < |name| ==> NameChar(name[k])) && t != "" && !NameChar(t[0])
    ensures var k := InlineLen(t);
            NameAt(name + t) == if k == |t| || t[k] != '(' then None else Some(Signed(name, |name| + k + 1))
  {
    NameLenOf(name, t);
    NameTaken(name, t);
    NameCut(name + t, name, t);
  }

  lemma Blanks(blanks: string, rest: string)
    requires Blank(blanks)
    ensures var t := blanks + ("(" + rest);
            && t != "" && !NameChar(t[0]) && t[0] != '#'
    ensures var t := blanks + ("(" + rest);
            var k := InlineLen(t);
            k < |t| && (t[k] == '(' <==> AllInline(blanks)) && (AllInline(blanks) ==> k == |blanks|)
  {
    var t := blanks + ("(" + rest);
    assert t[0] == if blanks == "" then '(' else blanks[0];
    InlineStops(blanks, "(" + rest);
    assert AllInline(blanks) ==> t[|blanks|] == '(';
  }

  /** After a plain name the parenthesis is read if the blanks between are inline. */
  lemma PlainName(raw: bool, name: string, blanks: string, rest: string)
    requires FunctionName(name) && Blank(blanks)
    ensures NameAndParenthesis((if raw then "r#" else "") + (name + (blanks + ("(" + rest))))
         == if AllInline(blanks) then Some(Signed(name, (if raw then 2 else 0) + |name| + |blanks| + 1)) else None
  {
    Blanks(blanks, rest);
    RawName(raw, name, blanks + ("(" + rest));
    IdentifierIsName(name);
    NameThen(name, blanks + ("(" + rest));
  }

  lemma NameTaken(name: string, t: string)
    ensures (name + t)[|name|..] == t && (name + t)[..|name|] == name
  {}

  lemma NotRaw(name: string, t: string)
    requires FunctionName(name) && t != "" && t[0] != '#'
    ensures !Starts(name + t, "r#")
  {
    var u := name + t;
    assert u[1] == if |name| > 1 then name[1] else t[0];
    assert u[..2][1] == u[1];
  }

  lemma AfterRaw(u: string)
    ensures Starts("r#" + u, "r#") && ("r#" + u)[2..] == u
  {}

  /** `r#` is left out of the name. */
  lemma RawName(raw: bool, name: string, t: string)
    requires FunctionName(name) && t != "" && t[0] != '#'
    ensures NameAndParenthesis((if raw then "r#" else "") + (name + t)) == Shifted(if raw then 2 else 0, NameAt(name + t))
  {
    var u := name + t;
    if raw {
      IdentifierIsName(name);
      NameLenOf(name, t);
      AfterRaw(u);
    } else {
      NotRaw(name, t);
      assert "" + u == u;
    }
  }

  /** With generics another name is read, if any. */
  lemma GenericName(name: string, t: string)
    requires FunctionName(name) && t != "" && t[0] == '<'
    ensures var r := NameAt(name + t); r.Some? ==> r.value.name != name
  {
    IdentifierIsName(name);
    NameLenOf(name, t);
    LongerName(name + t, |name|);
  }

  lemma LongerName(u: string, n: nat)
    requires NameLen(u) > n
    ensures NameAt(u).Some? ==> |NameAt(u).value.name| > n
  {}

  // ----- `fn` -----

  function NameTail(h: Head, rest: string): string
  {
    (if h.raw then "r#" else "") + (h.name + (h.generics + (h.blanks + ("(" + rest))))
  }

  lemma NameTailStarts(h: Head, rest: string)
    requires FunctionName(h.name)
    ensures var t := NameTail(h, rest); t != "" && !IsSpace(t[0])
  {
    assert NameTail(h, rest)[0] == if h.raw then 'r' else h.name[0];
  }

  lemma NameExactly(h: Head, rest: string)
    requires HeadOk(h)
    ensures ReadsName(NameAndParenthesis(NameTail(h, rest)), h.name, |NameText(h)|, h.generics == "" && AllInline(h.blanks))
  {
    var t := h.blanks + ("(" + rest);
    if h.generics == "" {
      NoGenerics(h.generics, t);
      PlainName(h.raw, h.name, h.blanks, rest);
      NameSize(h);
    } else {
      RawName(h.raw, h.name, h.generics + t);
      GenericName(h.name, h.generics + t);
    }
  }

  lemma NameSize(h: Head)
    ensures |NameText(h)| == (if h.raw then 2 else 0) + |h.name| + |h.generics| + |h.blanks| + 1
  {}

  lemma NoGenerics(generics: string, t: string)
    requires generics == ""
    ensures generics + t == t
  {}

  lemma NoNameAtBlank(t: string)
    requires t != "" && IsSpace(t[0])
    ensures NameAndParenthesis(t) == None
  {
    if Starts(t, "r#") { StartsFirst(t, "r#"); }
  }

  lemma FnFrom(u: string, n: nat, left: string)
    requires n == KeywordLen(u, "fn") && left == u[n..]
    ensures FnName(u) == if n == 0 then None else Shifted(n, NameAndParenthesis(left))
  {}

  lemma FnThen(gap: string, t: string)
    requires Gap(gap) && t != "" && !IsSpace(t[0])
    ensures FnName("fn" + (gap + t)) == if AllInline(gap) then Shifted(2 + |gap|, NameAndParenthesis(t)) else None
  {
    var n, left := KeywordReads("fn", gap, t);
    FnFrom("fn" + (gap + t), n, left);
    if !AllInline(gap) && n > 0 { NoNameAtBlank(left); }
  }

  lemma FnSize(h: Head)
    ensures |FnText(h)| == 2 + |h.gap| + |NameText(h)|
  {}

  /** What is read of a name, `good` if it is the name of the signature. */
  predicate ReadsName(r: Option<Signed>, name: string, n: nat, good: bool)
  {
    if good then r == Some(Signed(name, n)) else r.Some? ==> r.value.name != name
  }

  lemma FnReads(gap: string, t: string, name: string, n: nat, good: bool)
    requires Gap(gap) && t != "" && !IsSpace(t[0]) && ReadsName(NameAndParenthesis(t), name, n, good)
    ensures ReadsName(FnName("fn" + (gap + t)), name, 2 + |gap| + n, AllInline(gap) && good)
  {
    hide FnName, NameAndParenthesis;
    FnThen(gap, t);
  }

  lemma FnExactly(h: Head, rest: string)
    requires HeadOk(h)
    ensures ReadsName(FnName("fn" + (h.gap + NameTail(h, rest))), h.name, |FnText(h)|,
                      AllInline(h.gap) && h.generics == "" && AllInline(h.blanks))
  {
    hide FnName, NameAndParenthesis, NameTail;
    var t := NameTail(h, rest);
    NameTailStarts(h, rest);
    NameExactly(h, rest);
    FnReads(h.gap, t, h.name, |NameText(h)|, h.generics == "" && AllInline(h.blanks));
    FnSize(h);
  }

  // ----- qualifiers -----

  lemma {:induction false} QualifiersStart(qs: seq<Qualifier>, t: string)
    requires t != "" && t[0] == 'f'
    ensures var u := QualifiersText(qs) + t;
            u != "" && !IsSpace(u[0]) && (u[0] == 'f' <==> qs == []) && (u[0] == 'a' <==> qs != [] && qs[0].word == Async)
            && u[0] != 'p' && u[0] != '('
  {
    if qs == [] {
      assert "" + t == t;
    } else {
      assert (QualifiersText(qs) + t)[0] == KeywordText(qs[0].word)[0];
    }
  }

  /** Whether the signature is read after its visibility. */
  lemma QualifiersExactly(qs: seq<Qualifier>, t: string)
    requires t != "" && t[0] == 'f' && forall k :: 0 <= k < |qs| ==> Gap(qs[k].gap)
    ensures AsyncFn(QualifiersText(qs) + t) == if QualifiersReadable(qs) then Shifted(|QualifiersText(qs)|, FnName(t)) else None
  {
    if qs == [] {
      NoQualifier(t);
    } else {
      FirstQualifier(qs, t);
      QualifiersStart(qs[1..], t);
      QualifierFirst(qs[0], QualifiersText(qs[1..]) + t, |qs| == 1);
      OneReadable(qs);
      if |qs| == 1 { LastQualifier(qs, t); }
    }
  }

  lemma NoQualifier(t: string)
    requires t != "" && t[0] == 'f'
    ensures AsyncFn("" + t) == Shifted(0, FnName(t))
  {
    assert "" + t == t && t[0..] == t;
    OtherKeyword(t, "async");
  }

  lemma OneReadable(qs: seq<Qualifier>)
    requires qs != []
    ensures QualifiersReadable(qs) <==> |qs| == 1 && qs[0].word == Async && AllInline(qs[0].gap)
  {}

  lemma LastQualifier(qs: seq<Qualifier>, t: string)
    requires |qs| == 1
    ensures QualifiersText(qs[1..]) + t == t
  {
    assert qs[1..] == [];
    assert "" + t == t;
  }

  lemma FirstQualifier(qs: seq<Qualifier>, t: string)
    requires qs != []
    ensures QualifiersText(qs) + t == KeywordText(qs[0].word) + (qs[0].gap + (QualifiersText(qs[1..]) + t))
    ensures |qs| == 1 ==> |QualifiersText(qs)| == |KeywordText(qs[0].word)| + |qs[0].gap|
  {
    var more := QualifiersText(qs[1..]);
    Assoc(qs[0].gap, more, t);
    Assoc(KeywordText(qs[0].word), qs[0].gap + more, t);
  }

  lemma QualifierFirst(q: Qualifier, t: string, plain: bool)
    requires Gap(q.gap) && t != "" && !IsSpace(t[0]) && (t[0] == 'f' <==> plain)
    ensures AsyncFn(KeywordText(q.word) + (q.gap + t))
         == if q.word == Async && AllInline(q.gap) && plain then Shifted(5 + |q.gap|, FnName(t)) else None
  {
    if q.word == Async { AsyncFirst(q.gap, t, plain); } else { NoAsyncFn(KeywordText(q.word) + (q.gap + t)); }
  }

  lemma AsyncFrom(u: string, n: nat, left: string)
    requires n == KeywordLen(u, "async") && left == u[n..]
    ensures AsyncFn(u) == Shifted(n, FnName(left))
  {}

  lemma AsyncFirst(gap: string, t: string, plain: bool)
    requires Gap(gap) && t != "" && !IsSpace(t[0]) && (t[0] == 'f' <==> plain)
    ensures AsyncFn("async" + (gap + t)) == if AllInline(gap) && plain then Shifted(5 + |gap|, FnName(t)) else None
  {
    var n, left := KeywordReads("async", gap, t);
    AsyncFrom("async" + (gap + t), n, left);
    if !AllInline(gap) || !plain { NoFn(left); }
  }

  // ----- visibility -----

  /** Whatever is left of a visibility that is not read stops the search. */
  lemma VisibilityExactly(v: Visibility, t: string)
    requires VisibilityOk(v) && t != "" && !IsSpace(t[0]) && t[0] != 'p'
    ensures var u := VisibilityText(v) + t;
            Signature(u) == if VisibilityReadable(v) then Shifted(|VisibilityText(v)|, AsyncFn(t)) else None
  {
    match v
    case Private =>
      assert "" + t == t && t[0..] == t;
      OtherKeyword(t, "pub");
      if Starts(t, "pub(") { StartsFirst(t, "pub("); }
    case Public(gap) =>
      Assoc("pub", gap, t);
      PublicExactly(gap, t);
    case Restricted(before, scope, gap) =>
      RestrictedText(before, scope, gap, t);
      if before == "" { RestrictedExactly(scope, gap, t); } else { SpacedExactly(before, "(" + (scope + (")" + (gap + t)))); }
  }

  lemma RestrictedText(before: string, scope: string, gap: string, t: string)
    ensures "pub" + (before + ("(" + (scope + (")" + gap)))) + t == "pub" + (before + ("(" + (scope + (")" + (gap + t)))))
    ensures before == "" ==> "pub" + (before + ("(" + (scope + (")" + (gap + t))))) == "pub(" + (scope + (")" + (gap + t)))
    ensures before == "" ==> |"pub" + (before + ("(" + (scope + (")" + gap))))| == 5 + |scope| + |gap|
  {}

  lemma NoParenthesis(gap: string, t: string)
    requires Gap(gap)
    ensures !Starts("pub" + (gap + t), "pub(")
  {
    var u := "pub" + (gap + t);
    assert u[..4][3] == u[3] == gap[0];
  }

  lemma SignatureFrom(u: string, v: nat, left: string)
    requires v == VisibilityLen(u) && left == u[v..]
    ensures Signature(u) == Shifted(v, AsyncFn(left))
  {}

  lemma PublicExactly(gap: string, t: string)
    requires Gap(gap) && t != "" && !IsSpace(t[0])
    ensures Signature("pub" + (gap + t)) == if AllInline(gap) then Shifted(3 + |gap|, AsyncFn(t)) else None
  {
    NoParenthesis(gap, t);
    var n, left := KeywordReads("pub", gap, t);
    SignatureFrom("pub" + (gap + t), n, left);
    if !AllInline(gap) { NoAsyncFn(left); }
  }

  /** `pub (...)` is not read. */
  lemma SpacedExactly(gap: string, t: string)
    requires Gap(gap) && t != "" && t[0] == '('
    ensures Signature("pub" + (gap + t)) == None
  {
    NoParenthesis(gap, t);
    var n, left := KeywordReads("pub", gap, t);
    SignatureFrom("pub" + (gap + t), n, left);
    NoAsyncFn(left);
  }

  /** What is left of blanks and what follows them, after the inline ones. */
  lemma CutGap(gap: string, t: string) returns (after: string, b: nat)
    requires Gap(gap) && t != "" && !IsSpace(t[0])
    ensures after == gap + t && b == InlineLen(after) && after[b..] != ""
    ensures if AllInline(gap) then b == |gap| && after[b..] == t else IsSpace(after[b..][0])
  {
    after := gap + t;
    b := InlineLen(after);
    InlineStops(gap, t);
    NameTaken(gap, t);
    if !AllInline(gap) { assert after[b..][0] == after[b]; }
  }

  lemma RestrictedExactly(scope: string, gap: string, t: string)
    requires ')' !in scope && Gap(gap) && t != "" && !IsSpace(t[0])
    ensures Signature("pub(" + (scope + (")" + (gap + t)))) == if AllInline(gap) then Shifted(5 + |scope| + |gap|, AsyncFn(t)) else None
  {
    hide Signature, VisibilityLen, AsyncFn;
    var after, b := CutGap(gap, t);
    var n, left := RestrictedLen(scope, after);
    SignatureFrom("pub(" + (scope + (")" + after)), n, left);
    if !AllInline(gap) { NoAsyncFn(left); }
  }

  lemma RestrictedLen(scope: string, after: string) returns (n: nat, left: string)
    requires ')' !in scope
    ensures var u := "pub(" + (scope + (")" + after)); n == VisibilityLen(u) && left == u[n..]
    ensures var b := InlineLen(after);
            if b == 0 then n == 0 && left != "" && left[0] == 'p' else n == |scope| + 5 + b && left == after[b..]
  {
    var u, b := "pub(" + (scope + (")" + after)), InlineLen(after);
    ScopeSlices(scope, after);
    FindCharAt(scope, ')', after);
    n := VisibilityLen(u);
    left := u[n..];
    assert u[|scope| + 5 + b..] == u[|scope| + 5..][b..];
  }

  lemma ScopeSlices(scope: string, after: string)
    ensures var u := "pub(" + (scope + (")" + after));
            Starts(u, "pub(") && u[4..] == scope + [')'] + after && u[|scope| + 5..] == after && u[0] == 'p'
  {}

  // ----- the whole signature -----

  lemma HeadSplits(h: Head, rest: string)
    ensures HeadText(h) + rest
         == VisibilityText(h.visibility) + (QualifiersText(h.qualifiers) + ("fn" + (h.gap + NameTail(h, rest))))
  {
    var name := if h.raw then "r#" else "";
    assert NameText(h) + rest == NameTail(h, rest);
    Assoc(h.gap, NameText(h), rest);
    Assoc("fn", h.gap + NameText(h), rest);
    Assoc(QualifiersText(h.qualifiers), FnText(h), rest);
    Assoc(VisibilityText(h.visibility), QualifiersText(h.qualifiers) + FnText(h), rest);
  }

  /** What is read after the visibility, after the qualifiers, and after `fn`, put together. */
  lemma Combined(h: Head, s: Option<Signed>, a: Option<Signed>, f: Option<Signed>)
    requires s == if VisibilityReadable(h.visibility) then Shifted(|VisibilityText(h.visibility)|, a) else None
    requires a == if QualifiersReadable(h.qualifiers) then Shifted(|QualifiersText(h.qualifiers)|, f) else None
    requires ReadsName(f, h.name, |FnText(h)|, AllInline(h.gap) && h.generics == "" && AllInline(h.blanks))
    ensures Readable(h) ==> s == Some(Signed(h.name, |HeadText(h)|))
    ensures s.Some? && s.value.name == h.name ==> Readable(h)
  {}

  /** For every signature: it is read, with its name and to its parenthesis, if
      and only if it has no qualifier but `async`, no generics, no blank between
      `pub` and its parenthesis, and spaces and tabs as its only blanks. */
  lemma SignatureExactly(h: Head, rest: string)
    requires HeadOk(h)
    ensures Readable(h) ==> Signature(HeadText(h) + rest) == Some(Signed(h.name, |HeadText(h)|))
    ensures var s := Signature(HeadText(h) + rest); s.Some? && s.value.name == h.name ==> Readable(h)
  {
    var t := "fn" + (h.gap + NameTail(h, rest));
    var u := QualifiersText(h.qualifiers) + t;
    HeadSplits(h, rest);
    QualifiersStart(h.qualifiers, t);
    VisibilityExactly(h.visibility, u);
    QualifiersExactly(h.qualifiers, t);
    FnExactly(h, rest);
    Combined(h, Signature(HeadText(h) + rest), AsyncFn(u), FnName(t));
  }

  lemma HeadStarts(h: Head, rest: string)
    ensures var t := HeadText(h) + rest; t != "" && !Inline(t[0]) && t[0] != '#'
  {
    HeadSplits(h, rest);
    QualifiersStart(h.qualifiers, "fn" + (h.gap + NameTail(h, rest)));
    if !h.visibility.Private? { assert (HeadText(h) + rest)[0] == 'p'; }
  }
}
