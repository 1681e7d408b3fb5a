/** An independent description of the Rust lexemes `strip_noncode` reads, as a
    grammar with a printer, and the proof of what the scanner masks of every
    printed source: exactly its comments and literals, but for what the escaped
    apostrophe does. */
module LexerGrammar {
  import opened Text
  import opened RustLexer

  /** The inside of a block comment: characters and nested comments. */
  datatype Comment = Done | Char(c: char, rest: Comment) | Nest(inner: Comment, after: Comment)

  function Body(c: Comment): string
  {
    match c
    case Done => ""
    case Char(x, rest) => [x] + Body(rest)
    case Nest(inner, after) => "/*" + Body(inner) + "*/" + Body(after)
  }

  // No two characters of the body form `/*` or `*/` by accident; `follow` is
  // the text after the body.
  predicate Clean(c: Comment, follow: string)
  {
    match c
    case Done => true
    case Char(x, rest) =>
      var t := Body(rest) + follow;
      && !(x == '/' && t != "" && t[0] == '*')
      && !(x == '*' && t != "" && t[0] == '/')
      && Clean(rest, follow)
    case Nest(inner, after) => Clean(inner, "*/" + Body(after) + follow) && Clean(after, follow)
  }

  /** The inside of a string literal. */
  datatype Piece = Raw(c: char) | Escape(c: char)

  function PieceText(ps: seq<Piece>): string
  {
    if ps == [] then ""
    else (match ps[0] case Raw(c) => [c] case Escape(c) => ['\\', c]) + PieceText(ps[1..])
  }

  predicate PiecesOk(ps: seq<Piece>)
  {
    forall i :: 0 <= i < |ps| ==> ps[i].Raw? ==> ps[i].c != '"' && ps[i].c != '\\'
  }

  datatype Lexeme =
    | Code(c: char)
    | LineComment(text: string)
    | BlockComment(body: Comment)
    | StringLiteral(pieces: seq<Piece>)
    | RawString(byte: bool, hashes: nat, content: string)
    | CharLiteral(c: char)
    | EscapedChar(c: char, more: string)
    | EscapedApostrophe

  function Hashes(n: nat): string
  {
    seq(n, i => '#')
  }

  function LexemeText(l: Lexeme): (r: string)
    ensures r != ""
  {
    match l
    case Code(c) => [c]
    case LineComment(text) => "//" + text
    case BlockComment(body) => "/*" + Body(body) + "*/"
    case StringLiteral(pieces) => "\"" + PieceText(pieces) + "\""
    case RawString(byte, hashes, content) =>
      (if byte then "br" else "r") + Hashes(hashes) + "\"" + content + Terminator(hashes)
    case CharLiteral(c) => ['\'', c, '\'']
    case EscapedChar(c, more) => "'\\" + [c] + more + "'"
    case EscapedApostrophe => "'\\''"
  }

  /** A raw string opener: an optional `b`, `r`, some hashes, a quote. */
  predicate RawOpener(t: string, byte: bool, hashes: nat)
  {
    Starts(t, (if byte then "br" else "r") + Hashes(hashes) + "\"")
  }

  /** `t` begins with a character that opens no comment and no literal. */
  ghost predicate OpensNothing(t: string)
    requires t != ""
  {
    && !StartsPair(t, '/', '/') && !StartsPair(t, '/', '*') && t[0] != '"'
    && (forall byte, hashes :: !RawOpener(t, byte, hashes))
    && (t[0] == '\'' ==>
          if |t| >= 2 && t[1] == '\\' then '\'' !in t[2..] else |t| < 3 || t[2] != '\'')
  }

  /** Lexical well-formedness of a lexeme in front of the text `follow`. */
  ghost predicate LexemeOk(l: Lexeme, follow: string)
  {
    match l
    case Code(c) => OpensNothing([c] + follow)
    case LineComment(text) => '\n' !in text && (follow == "" || follow[0] == '\n')
    case BlockComment(body) => Clean(body, "*/" + follow)
    case StringLiteral(pieces) => PiecesOk(pieces)
    case RawString(byte, hashes, content) =>
      forall k :: 0 <= k < |content| ==> !Starts(content[k..], Terminator(hashes))
    case CharLiteral(c) => true
    case EscapedChar(c, more) => c != '\'' && '\'' !in more
    case EscapedApostrophe => true
  }

  function Source(ls: seq<Lexeme>): string
  {
    if ls == [] then "" else LexemeText(ls[0]) + Source(ls[1..])
  }

  ghost predicate WellFormed(ls: seq<Lexeme>)
  {
    ls != [] ==> LexemeOk(ls[0], Source(ls[1..])) && WellFormed(ls[1..])
  }

  /** Code stays, a comment or literal is blanked. */
  function Kept(l: Lexeme): string
  {
    if l.Code? then [l.c] else Blanks(LexemeText(l))
  }

  /** The source with every comment and literal blanked. */
  function Masked(ls: seq<Lexeme>): string
  {
    if ls == [] then ""
    else Kept(ls[0]) + Masked(ls[1..])
  }

  /** The source with every comment and literal blanked, but for the last
      apostrophe of every escaped apostrophe. */
  function Shown(ls: seq<Lexeme>): string
  {
    if ls == [] then ""
    else (if ls[0].EscapedApostrophe? then "   '" else Kept(ls[0])) + Shown(ls[1..])
  }

  /** An apostrophe in front of `follow` is read as the start of a char literal. */
  predicate Pairs(follow: string)
  {
    if follow != "" && follow[0] == '\\' then '\'' in follow[1..] else |follow| > 1 && follow[1] == '\''
  }

  /** No escaped apostrophe stands in front of text its last apostrophe pairs with. */
  predicate Apart(ls: seq<Lexeme>)
  {
    ls != [] ==> (ls[0].EscapedApostrophe? ==> !Pairs(Source(ls[1..]))) && Apart(ls[1..])
  }

  // ----- one lexeme -----

  // A comment body is skipped at any nesting depth.
  lemma {:induction false} BlockSkipsBody(c: Comment, follow: string, depth: nat)
    requires Clean(c, follow) && depth >= 1
    ensures BlockLen(Body(c) + follow, depth) == |Body(c)| + BlockLen(follow, depth)
    decreases c
  {
    match c
    case Done =>
      assert Body(c) + follow == follow;
    case Char(x, rest) =>
      BlockSkipsBody(rest, follow, depth);
      CharSkips(x, Body(rest), follow, depth);
    case Nest(inner, after) =>
      BlockSkipsBody(inner, "*/" + Body(after) + follow, depth + 1);
      BlockSkipsBody(after, follow, depth);
      NestSkips(Body(inner), Body(after), follow, depth);
  }

  lemma CharSkips(x: char, rest: string, follow: string, depth: nat)
    requires depth >= 1
    requires var t := rest + follow; !(x == '/' && t != "" && t[0] == '*') && !(x == '*' && t != "" && t[0] == '/')
    ensures BlockLen([x] + rest + follow, depth) == 1 + BlockLen(rest + follow, depth)
  {
    var t := rest + follow;
    Assoc([x], rest, follow);
    assert ([x] + t)[1..] == t;
    assert t != "" ==> ([x] + t)[1] == t[0];
  }

  lemma NestSkips(inner: string, after: string, follow: string, depth: nat)
    requires depth >= 1
    requires BlockLen(inner + ("*/" + after + follow), depth + 1) == |inner| + BlockLen("*/" + after + follow, depth + 1)
    requires BlockLen(after + follow, depth) == |after| + BlockLen(follow, depth)
    ensures BlockLen("/*" + inner + "*/" + after + follow, depth) == |inner| + |after| + 4 + BlockLen(follow, depth)
  {
    NestText(inner, after, follow);
  }

  lemma NestText(inner: string, after: string, follow: string)
    ensures var t, tail := "/*" + inner + "*/" + after + follow, "*/" + after + follow;
            && StartsPair(t, '/', '*') && t[2..] == inner + tail
            && StartsPair(tail, '*', '/') && !StartsPair(tail, '/', '*') && tail[2..] == after + follow
  {}

  lemma BlockLexeme(body: Comment, follow: string)
    requires Clean(body, "*/" + follow)
    ensures TokenLen("/*" + Body(body) + "*/" + follow) == |Body(body)| + 4
  {
    var t, tail := "/*" + Body(body) + "*/" + follow, "*/" + follow;
    BlockText(Body(body), follow);
    BlockSkipsBody(body, tail, 1);
    assert BlockLen(tail, 1) == 2 + BlockLen(follow, 0);
    assert TokenLen(t) == 2 + BlockLen(t[2..], 1);
  }

  lemma BlockText(inner: string, follow: string)
    ensures var t, tail := "/*" + inner + "*/" + follow, "*/" + follow;
            && StartsPair(t, '/', '*') && !StartsPair(t, '/', '/') && t[2..] == inner + tail
            && StartsPair(tail, '*', '/') && !StartsPair(tail, '/', '*') && tail[2..] == follow
  {}

  lemma LineLexeme(text: string, follow: string)
    requires '\n' !in text && (follow == "" || follow[0] == '\n')
    ensures TokenLen("//" + text + follow) == |text| + 2
  {
    var t := "//" + text;
    if follow == "" {
      assert t + follow == t;
      FindCharAbsent(t, '\n');
    } else {
      assert t + follow == t + ['\n'] + follow[1..];
      FindCharAt(t, '\n', follow[1..]);
    }
  }

  lemma {:induction false} StringSkipsPieces(ps: seq<Piece>, follow: string)
    requires PiecesOk(ps)
    ensures StringLen(PieceText(ps) + "\"" + follow) == |PieceText(ps)| + 1
    decreases |ps|
  {
    var t := PieceText(ps) + "\"" + follow;
    if ps != [] {
      var u := PieceText(ps[1..]) + "\"" + follow;
      StringSkipsPieces(ps[1..], follow);
      if ps[0].Raw? {
        assert t[0] == ps[0].c && t[1..] == u;
      } else {
        assert t[0] == '\\' && t[2..] == u;
      }
    }
  }

  lemma StringLexeme(ps: seq<Piece>, follow: string)
    requires PiecesOk(ps)
    ensures TokenLen("\"" + PieceText(ps) + "\"" + follow) == |PieceText(ps)| + 2
  {
    var t := "\"" + PieceText(ps) + "\"" + follow;
    assert t[0] == '"' && t[1..] == PieceText(ps) + "\"" + follow;
    StringSkipsPieces(ps, follow);
  }

  lemma {:induction false} CountHashes(n: nat, follow: string)
    requires follow != "" && follow[0] != '#'
    ensures HashCount(Hashes(n) + follow) == n
  {
    if n == 0 {
      assert Hashes(n) + follow == follow;
    } else {
      assert (Hashes(n) + follow)[1..] == Hashes(n - 1) + follow;
      CountHashes(n - 1, follow);
    }
  }

  /** The terminator cannot overlap the end of a content that does not hold it. */
  lemma FindTerminator(content: string, hashes: nat, follow: string)
    requires forall k :: 0 <= k < |content| ==> !Starts(content[k..], Terminator(hashes))
    ensures Find(content + Terminator(hashes) + follow, Terminator(hashes)) == Some(|content|)
  {
    var w := Terminator(hashes);
    var t := content + w + follow;
    assert t[|content|..] == w + follow;
    forall j | 0 <= j < |content|
      ensures !Starts(t[j..], w)
    {
      if j + |w| <= |content| {
        assert t[j..][..|w|] == content[j..][..|w|];
      } else if j + |w| <= |t| {
        var m := |content| - j;
        assert t[j..][..|w|][m] == '"' && w[m] == '#';
      }
    }
    FindAt(t, w, |content|);
  }

  lemma RawLexeme(byte: bool, hashes: nat, content: string, follow: string)
    requires forall k :: 0 <= k < |content| ==> !Starts(content[k..], Terminator(hashes))
    ensures var text := LexemeText(RawString(byte, hashes, content));
            TokenLen(text + follow) == |text|
  {
    RawAfter(if byte then "br" else "r", hashes, content, follow);
  }

  lemma RawAfter(prefix: string, hashes: nat, content: string, follow: string)
    requires prefix == "br" || prefix == "r"
    requires forall k :: 0 <= k < |content| ==> !Starts(content[k..], Terminator(hashes))
    ensures var text := prefix + Hashes(hashes) + "\"" + content + Terminator(hashes);
            TokenLen(text + follow) == |text|
  {
    var t := prefix + Hashes(hashes) + "\"" + content + Terminator(hashes) + follow;
    RawText(prefix, hashes, content, follow);
    CountHashes(hashes, "\"" + (content + Terminator(hashes) + follow));
    FindTerminator(content, hashes, follow);
    RawParts(t, |prefix|, hashes, content, follow);
  }

  lemma RawParts(t: string, p: nat, hashes: nat, content: string, follow: string)
    requires |t| > p + hashes && (p == 1 || p == 2) && t[0] == (if p == 2 then 'b' else 'r') && t[p - 1] == 'r'
    requires HashCount(t[p..]) == hashes && t[p + hashes] == '"'
    requires t[p + hashes + 1..] == content + Terminator(hashes) + follow
    requires Find(content + Terminator(hashes) + follow, Terminator(hashes)) == Some(|content|)
    ensures TokenLen(t) == p + 2 * hashes + |content| + 2
  {
    RawPrefixIs(t, p);
    RawRestIs(t, p, hashes, content, follow);
    NoComment(t);
  }

  lemma RawPrefixIs(t: string, p: nat)
    requires |t| > p && (p == 1 || p == 2) && t[0] == (if p == 2 then 'b' else 'r') && t[p - 1] == 'r'
    ensures RawPrefix(t) == p && RawLen(t) == RawRest(t, p, HashCount(t[p..]))
  {}

  lemma RawRestIs(t: string, p: nat, hashes: nat, content: string, follow: string)
    requires |t| > p + hashes && t[p + hashes] == '"'
    requires t[p + hashes + 1..] == content + Terminator(hashes) + follow
    requires Find(content + Terminator(hashes) + follow, Terminator(hashes)) == Some(|content|)
    ensures RawRest(t, p, hashes) == p + 2 * hashes + |content| + 2
  {}

  /** A text that starts with a letter is no comment. */
  lemma NoComment(t: string)
    requires t != "" && t[0] != '/'
    ensures !StartsPair(t, '/', '/') && !StartsPair(t, '/', '*')
  {}

  lemma RawText(prefix: string, hashes: nat, content: string, follow: string)
    requires prefix == "br" || prefix == "r"
    ensures var body := content + Terminator(hashes) + follow;
            var t := prefix + Hashes(hashes) + "\"" + content + Terminator(hashes) + follow;
            var p := |prefix|;
            && t[0] == prefix[0] && t[p - 1] == 'r'
            && t[p..] == Hashes(hashes) + ("\"" + body)
            && t[p + hashes] == '"' && t[p + hashes + 1..] == body
  {}

  lemma EscapedLexeme(c: char, more: string, follow: string)
    requires c != '\'' && '\'' !in more
    ensures TokenLen("'\\" + [c] + more + "'" + follow) == |more| + 4
  {
    var t := "'\\" + [c] + more + "'" + follow;
    assert t[2..] == ([c] + more) + ['\''] + follow;
    FindCharAt([c] + more, '\'', follow);
  }

  /** The scanner consumes exactly the text of a comment or literal. */
  lemma TokenOfLexeme(l: Lexeme, follow: string)
    requires LexemeOk(l, follow) && !l.Code? && !l.EscapedApostrophe?
    ensures TokenLen(LexemeText(l) + follow) == |LexemeText(l)|
  {
    match l
    case LineComment(text) => LineLexeme(text, follow);
    case BlockComment(body) => BlockLexeme(body, follow);
    case StringLiteral(pieces) => StringLexeme(pieces, follow);
    case RawString(byte, hashes, content) => RawLexeme(byte, hashes, content, follow);
    case CharLiteral(c) =>
      var t := LexemeText(l) + follow;
      if c == '\\' {
        assert t[2..] == "" + ['\''] + follow;
        FindCharAt("", '\'', follow);
      }
    case EscapedChar(c, more) => EscapedLexeme(c, more, follow);
  }

  /** A character that opens nothing is not the start of a token. */
  lemma CodeIsNoToken(t: string)
    requires t != "" && OpensNothing(t)
    ensures TokenLen(t) == 0
  {
    if t[0] == 'r' || t[0] == 'b' {
      var p := RawPrefix(t);
      if RawLen(t) > 0 {
        var h := HashCount(t[p..]);
        var opener := (if p == 2 then "br" else "r") + Hashes(h) + "\"";
        assert t[..|opener|] == opener;
        assert RawOpener(t, p == 2, h);
      }
    }
    if t[0] == '\'' {
      if StartsPair(t, '\'', '\\') { FindCharAbsent(t[2..], '\''); }
    }
  }

  /** An escaped char literal is recognised as a whole exactly when it is not
      the escaped apostrophe (and holds no other apostrophe). */
  lemma EscapedCharExactly(c: char, more: string, follow: string)
    ensures TokenLen("'\\" + [c] + more + "'" + follow) == |more| + 4
       <==> c != '\'' && '\'' !in more
  {
    var inside := [c] + more;
    var t := "'\\" + [c] + more + "'" + follow;
    if c != '\'' && '\'' !in more {
      EscapedLexeme(c, more, follow);
    } else {
      assert '\'' in inside by {
        if c == '\'' { assert inside[0] == '\''; } else { assert '\'' in more; }
      }
      var j :| 0 <= j < |inside| && inside[j] == '\'';
      assert t[2..][j..][..1] == ['\''];
      FindIsFirst(t[2..], "'", j);
    }
  }

  // The literal `'\''` keeps its closing apostrophe, which is then scanned
  // again in front of whatever follows.
  lemma EscapedApostropheIsSplit(follow: string)
    ensures StripNoncode("'\\''" + follow) == "   " + StripNoncode("'" + follow)
  {
    var t, u := "'\\''" + follow, "'" + follow;
    assert t[2..] == "" + ['\''] + u;
    FindCharAt("", '\'', u);
    assert TokenLen(t) == 3 && t[3..] == u;
    assert Blanks(t[..3]) == "   ";
  }

  lemma ApostrophePairs(follow: string)
    ensures TokenLen("'" + follow) == 0 <==> !Pairs(follow)
  {
    var t := "'" + follow;
    if follow != "" && follow[0] == '\\' {
      var rest := follow[1..];
      assert t[2..] == rest;
      if '\'' in rest {
        var j :| 0 <= j < |rest| && rest[j] == '\'';
        assert rest[j..][..1] == ['\''];
        FindIsFirst(rest, "'", j);
      } else {
        FindCharAbsent(rest, '\'');
      }
    }
  }

  lemma Cancel(a: string, x: string, y: string)
    ensures a + x == a + y <==> x == y
  {
    assert (a + x)[|a|..] == x && (a + y)[|a|..] == y;
  }

  /** The last apostrophe of `'\''` survives exactly if it pairs with nothing. */
  lemma LastApostrophe(follow: string, shown: string)
    ensures StripNoncode("'\\''" + follow) == "   '" + shown <==> !Pairs(follow) && StripNoncode(follow) == shown
  {
    var u := "'" + follow;
    EscapedApostropheIsSplit(follow);
    ApostrophePairs(follow);
    Assoc("   ", "'", shown);
    Cancel("   ", StripNoncode(u), "'" + shown);
    assert u[0] == '\'' && u[1..] == follow;
    if Pairs(follow) {
      assert StripNoncode(u)[0] == ' ';
    } else {
      Cancel("'", StripNoncode(follow), shown);
    }
  }

  lemma StripAfterLexeme(l: Lexeme, follow: string)
    requires LexemeOk(l, follow) && !l.EscapedApostrophe?
    ensures StripNoncode(LexemeText(l) + follow)
         == Kept(l) + StripNoncode(follow)
  {
    var t, n := LexemeText(l) + follow, |LexemeText(l)|;
    assert t[..n] == LexemeText(l) && t[n..] == follow;
    if l.Code? { CodeIsNoToken(t); } else { TokenOfLexeme(l, follow); }
  }

  /** For every well-formed source: its comments and literals, and nothing else,
      are blanked, but for the last apostrophe of every `'\''`, if and only if no
      such apostrophe pairs with what follows it. */
  lemma {:induction false} StripShowsExactly(ls: seq<Lexeme>)
    requires WellFormed(ls)
    ensures StripNoncode(Source(ls)) == Shown(ls) <==> Apart(ls)
    decreases |ls|
  {
    if ls != [] {
      var l, follow := ls[0], Source(ls[1..]);
      StripShowsExactly(ls[1..]);
      if l.EscapedApostrophe? {
        LastApostrophe(follow, Shown(ls[1..]));
      } else {
        StripAfterLexeme(l, follow);
        Cancel(Kept(l), StripNoncode(follow), Shown(ls[1..]));
      }
    }
  }

  lemma ApostropheShows(x: string, y: string)
    ensures "   '" + x != Blanks("'\\''") + y
  {
    assert ("   '" + x)[3] == '\'' && (Blanks("'\\''") + y)[3] == ' ';
  }

  lemma {:induction false} ShownIsMasked(ls: seq<Lexeme>)
    ensures Shown(ls) == Masked(ls) <==> EscapedApostrophe !in ls
    decreases |ls|
  {
    if ls != [] {
      ShownIsMasked(ls[1..]);
      FirstOrRest(ls);
      hide Kept;
      if ls[0].EscapedApostrophe? {
        ApostropheShows(Shown(ls[1..]), Masked(ls[1..]));
      } else {
        Cancel(Kept(ls[0]), Shown(ls[1..]), Masked(ls[1..]));
      }
    }
  }

  lemma FirstOrRest(ls: seq<Lexeme>)
    requires ls != []
    ensures EscapedApostrophe in ls <==> ls[0].EscapedApostrophe? || EscapedApostrophe in ls[1..]
  {}

  lemma {:induction false} NoneIsApart(ls: seq<Lexeme>)
    requires EscapedApostrophe !in ls
    ensures Apart(ls)
    decreases |ls|
  {
    if ls != [] {
      FirstOrRest(ls);
      NoneIsApart(ls[1..]);
    }
  }

  /** For every well-formed source: exactly its comments and literals are
      blanked if it has no escaped apostrophe, and, when its escaped apostrophes
      pair with nothing, only if. */
  lemma StripMasksExactlyNoncode(ls: seq<Lexeme>)
    requires WellFormed(ls)
    ensures EscapedApostrophe !in ls ==> StripNoncode(Source(ls)) == Masked(ls)
    ensures Apart(ls) && EscapedApostrophe in ls ==> StripNoncode(Source(ls)) != Masked(ls)
  {
    StripShowsExactly(ls);
    ShownIsMasked(ls);
    if EscapedApostrophe !in ls { NoneIsApart(ls); }
  }

  // ----- a source the escaped apostrophe derails -----

  /** `'\'','"'` in front of any source. */
  function Derailed(ls: seq<Lexeme>): seq<Lexeme>
  {
    [EscapedApostrophe] + ([Code(',')] + ([CharLiteral('"')] + ls))
  }

  lemma PrependText(l: Lexeme, ls: seq<Lexeme>)
    ensures Source([l] + ls) == LexemeText(l) + Source(ls)
    ensures Masked([l] + ls) == Kept(l) + Masked(ls)
  {
    assert ([l] + ls)[1..] == ls;
  }

  lemma PrependOk(l: Lexeme, ls: seq<Lexeme>)
    requires LexemeOk(l, Source(ls)) && WellFormed(ls)
    ensures WellFormed([l] + ls)
  {
    assert ([l] + ls)[1..] == ls;
  }

  lemma DerailedText(ls: seq<Lexeme>)
    ensures Source(Derailed(ls)) == "'\\''" + ("," + ("'\"'" + Source(ls)))
    ensures Masked(Derailed(ls)) == "    " + ("," + ("   " + Masked(ls)))
  {
    PrependText(CharLiteral('"'), ls);
    PrependText(Code(','), [CharLiteral('"')] + ls);
    PrependText(EscapedApostrophe, [Code(',')] + ([CharLiteral('"')] + ls));
    BlankLiterals();
  }

  lemma BlankLiterals()
    ensures Blanks("'\\''") == "    " && Blanks("'\"'") == "   "
  {}

  lemma DerailedOk(ls: seq<Lexeme>)
    requires WellFormed(ls)
    ensures WellFormed(Derailed(ls))
  {
    var ls2 := [CharLiteral('"')] + ls;
    PrependOk(CharLiteral('"'), ls);
    CommaOpensNothing(Source(ls2));
    PrependOk(Code(','), ls2);
    PrependOk(EscapedApostrophe, [Code(',')] + ls2);
  }

  lemma CommaOpensNothing(t: string)
    ensures OpensNothing([','] + t)
  {
    forall byte, hashes ensures !RawOpener([','] + t, byte, hashes) {
      assert ((if byte then "br" else "r") + Hashes(hashes) + "\"")[0] != ',';
    }
  }

  lemma {:induction false} StringSkipsCode(code: string, rest: string)
    requires '"' !in code && '\\' !in code
    ensures StringLen(code + "\"" + rest) == |code| + 1
    decreases |code|
  {
    var t := code + "\"" + rest;
    if code != "" {
      assert code[0] in code;
      assert t[1..] == code[1..] + "\"" + rest;
      StringSkipsCode(code[1..], rest);
    }
  }

  /** A quote in front of code opens a string that ends at the next quote. */
  lemma QuoteHides(code: string, rest: string)
    requires '"' !in code && '\\' !in code
    ensures StripNoncode("\"" + (code + "\"" + rest)) == " " + Blanks(code) + " " + StripNoncode(rest)
  {
    var t, n := "\"" + (code + "\"" + rest), |code| + 2;
    assert t[0] == '"' && t[1..] == code + "\"" + rest;
    StringSkipsCode(code, rest);
    assert t[n..] == rest;
    assert Blanks(t[..n]) == " " + Blanks(code) + " ";
  }

  lemma ShortLiteral(c: char, t: string)
    requires c != '\\'
    ensures StripNoncode("'" + ([c, '\''] + t)) == [' ', BlankChar(c), ' '] + StripNoncode(t)
  {
    var u := "'" + ([c, '\''] + t);
    assert u[3..] == t && TokenLen(u) == 3;
    assert Blanks(u[..3]) == [' ', BlankChar(c), ' '];
  }

  lemma DerailedReading(source: string, t: string)
    requires t == "\"'" + source
    ensures StripNoncode("'\\''" + ("," + ("'\"'" + source))) == "   " + ("   " + StripNoncode(t))
  {
    assert "," + ("'\"'" + source) == [',', '\''] + t;
    EscapedApostropheIsSplit([',', '\''] + t);
    ShortLiteral(',', t);
  }

  lemma DerailedQuote(code: string, rest: string)
    requires '"' !in code && '\\' !in code
    ensures StripNoncode("\"'" + (code + "\"" + rest)) == "  " + Blanks(code) + " " + StripNoncode(rest)
  {
    QuoteHides("'" + code, rest);
    BlankFirst(code);
    QuoteFirst(code, "\"" + rest);
    Assoc(code, "\"", rest);
    Assoc("'" + code, "\"", rest);
    Assoc(" ", " ", Blanks(code));
  }

  lemma BlankFirst(code: string)
    ensures Blanks("'" + code) == " " + Blanks(code)
  {}

  lemma QuoteFirst(code: string, t: string)
    ensures "\"'" + (code + t) == "\"" + (("'" + code) + t)
  {}

  lemma Spaces(b: string, t: string, m: string)
    ensures "   " + ("   " + ("  " + b + " " + t)) == "        " + b + " " + t
    ensures "    " + ("," + ("   " + m)) == "    ,   " + m
  {}

  /** After `'\'','"'` all code up to the next quote is blanked, although none of
      it is in a comment or literal. */
  lemma CodeIsDerailed(ls: seq<Lexeme>, code: string, rest: string)
    requires WellFormed(ls) && Source(ls) == code + "\"" + rest && '"' !in code && '\\' !in code
    ensures WellFormed(Derailed(ls)) && Masked(Derailed(ls)) == "    ,   " + Masked(ls)
    ensures StripNoncode(Source(Derailed(ls))) == "        " + Blanks(code) + " " + StripNoncode(rest)
  {
    DerailedText(ls);
    DerailedOk(ls);
    DerailedReading(Source(ls), "\"'" + Source(ls));
    DerailedQuote(code, rest);
    Spaces(Blanks(code), StripNoncode(rest), Masked(ls));
  }
}
