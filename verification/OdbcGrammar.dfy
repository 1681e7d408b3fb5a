/** The Rust tokens `code_only` reads, as a grammar with a printer, and what its
    mask makes of every printed source: exactly comments, strings, raw strings
    and char literals are blanked, but for what longer escapes do. */
module OdbcGrammar {
  import opened Text
  import opened RustLexer
  import LexerGrammar
  import opened OdbcStrict

  datatype Prefix = Plain | Byte | C

  /** `LongEscape` is a char literal like `'\x41'` or `'\u{1F600}'`. */
  datatype Token =
    | Code(c: char)
    | LineComment(text: string)
    | BlockComment(body: LexerGrammar.Comment)
    | StringLiteral(pieces: seq<LexerGrammar.Piece>)
    | RawString(prefix: Prefix, hashes: nat, content: string)
    | CharLiteral(c: char)
    | EscapedChar(c: char)
    | LongEscape(c: char, more: string)

  function PrefixText(p: Prefix): (t: string)
    ensures 1 <= |t| <= 2 && t[|t| - 1] == 'r'
  {
    match p case Plain => "r" case Byte => "br" case C => "cr"
  }

  function TokenText(t: Token): (r: string)
    ensures r != ""
  {
    match t
    case Code(c) => [c]
    case LineComment(text) => "//" + text
    case BlockComment(body) => "/*" + LexerGrammar.Body(body) + "*/"
    case StringLiteral(pieces) => "\"" + (LexerGrammar.PieceText(pieces) + "\"")
    case RawString(prefix, hashes, content) =>
      PrefixText(prefix) + (LexerGrammar.Hashes(hashes) + ("\"" + (content + Terminator(hashes))))
    case CharLiteral(c) => ['\'', c, '\'']
    case EscapedChar(c) => ['\'', '\\', c, '\'']
    case LongEscape(c, more) => ['\'', '\\', c] + (more + "'")
  }

  function Source(ts: seq<Token>): string
  {
    if ts == [] then "" else TokenText(ts[0]) + Source(ts[1..])
  }

  // ----- well-formed sources -----

  /** A char literal of at most one escape starts here. */
  predicate StartsChar(t: string)
  {
    || (|t| >= 4 && t[0] == '\'' && t[1] == '\\' && t[3] == '\'')
    || (|t| >= 3 && t[0] == '\'' && t[1] !in ['\'', '\\', '\n'] && t[2] == '\'')
  }

  /** A raw string opener: its prefix, some hashes, a quote. */
  predicate RawOpener(t: string, prefix: Prefix, hashes: nat)
  {
    Starts(t, PrefixText(prefix) + (LexerGrammar.Hashes(hashes) + "\""))
  }

  /** `t` begins with a character that opens no comment and no literal. */
  ghost predicate OpensNothing(t: string, afterWord: bool)
    requires t != ""
  {
    && !StartsPair(t, '/', '/') && !StartsPair(t, '/', '*') && t[0] != '"' && !StartsChar(t)
    && (afterWord || forall prefix, hashes :: !RawOpener(t, prefix, hashes))
  }

  predicate HexChar(c: char)
  {
    '0' <= c <= '9' || 'a' <= c <= 'f' || 'A' <= c <= 'F' || c in "{}_"
  }

  /** Well-formedness of a token in front of the text `follow`. */
  ghost predicate TokenOk(t: Token, afterWord: bool, follow: string)
  {
    match t
    case Code(c) => OpensNothing([c] + follow, afterWord)
    case LineComment(text) => '\n' !in text && (follow == "" || follow[0] == '\n')
    case BlockComment(body) => LexerGrammar.Clean(body, "*/" + follow)
    case StringLiteral(pieces) => LexerGrammar.PiecesOk(pieces)
    case RawString(_, hashes, content) =>
      !afterWord && forall k :: 0 <= k < |content| ==> !Starts(content[k..], Terminator(hashes))
    case CharLiteral(c) => c !in ['\'', '\\', '\n']
    case EscapedChar(_) => true
    case LongEscape(c, more) => c in "xu" && more != "" && forall k :: 0 <= k < |more| ==> HexChar(more[k])
  }

  function LastOf(t: string): char
    requires t != ""
  {
    t[|t| - 1]
  }

  ghost predicate WellFormed(ts: seq<Token>, afterWord: bool, word: char -> bool)
  {
    ts != [] ==> TokenOk(ts[0], afterWord, Source(ts[1..])) && WellFormed(ts[1..], word(LastOf(TokenText(ts[0]))), word)
  }

  /** Code, and longer escapes, stay; every other token is blanked. */
  function Shown(ts: seq<Token>): string
  {
    if ts == [] then ""
    else (if ts[0].Code? || ts[0].LongEscape? then TokenText(ts[0]) else Blanks(TokenText(ts[0]))) + Shown(ts[1..])
  }

  /** The source with every comment and literal blanked. */
  function Masked(ts: seq<Token>): string
  {
    if ts == [] then "" else (if ts[0].Code? then TokenText(ts[0]) else Blanks(TokenText(ts[0]))) + Masked(ts[1..])
  }

  /** The last apostrophe of no longer escape is read as the start of a char literal. */
  predicate Apart(ts: seq<Token>)
  {
    ts != [] ==> (ts[0].LongEscape? ==> !StartsChar("'" + Source(ts[1..]))) && Apart(ts[1..])
  }

  // ----- one token -----

  function OnePiece(p: LexerGrammar.Piece): string
  {
    match p case Raw(c) => [c] case Escape(c) => ['\\', c]
  }

  lemma StringStep(p: LexerGrammar.Piece, u: string)
    requires p.Raw? ==> p.c != '"' && p.c != '\\'
    ensures ClosedString(OnePiece(p) + u) == if ClosedString(u) == 0 then 0 else |OnePiece(p)| + ClosedString(u)
  {
    var t := OnePiece(p) + u;
    assert t[|OnePiece(p)|..] == u;
  }

  lemma {:induction false} StringCloses(ps: seq<LexerGrammar.Piece>, follow: string)
    requires LexerGrammar.PiecesOk(ps)
    ensures ClosedString(LexerGrammar.PieceText(ps) + ("\"" + follow)) == |LexerGrammar.PieceText(ps)| + 1
    decreases |ps|
  {
    if ps == [] {
      assert LexerGrammar.PieceText(ps) + ("\"" + follow) == "\"" + follow;
    } else {
      hide ClosedString;
      var head, rest := OnePiece(ps[0]), LexerGrammar.PieceText(ps[1..]);
      StringCloses(ps[1..], follow);
      StringStep(ps[0], rest + ("\"" + follow));
      assert LexerGrammar.PieceText(ps) == head + rest;
      Assoc(head, rest, "\"" + follow);
    }
  }

  lemma StringToken(ps: seq<LexerGrammar.Piece>, follow: string)
    requires LexerGrammar.PiecesOk(ps)
    ensures MaskLen("\"" + (LexerGrammar.PieceText(ps) + "\"") + follow, false) == |LexerGrammar.PieceText(ps)| + 2
    ensures MaskLen("\"" + (LexerGrammar.PieceText(ps) + "\"") + follow, true) == |LexerGrammar.PieceText(ps)| + 2
  {
    var t := "\"" + (LexerGrammar.PieceText(ps) + "\"") + follow;
    assert t[0] == '"' && t[1..] == LexerGrammar.PieceText(ps) + ("\"" + follow);
    StringCloses(ps, follow);
  }

  lemma LineToken(text: string, follow: string, afterWord: bool)
    requires '\n' !in text && (follow == "" || follow[0] == '\n')
    ensures MaskLen("//" + text + follow, afterWord) == |text| + 2
  {
    LexerGrammar.LineLexeme(text, follow);
    assert StartsPair("//" + text + follow, '/', '/');
  }

  lemma BlockToken(body: LexerGrammar.Comment, follow: string, afterWord: bool)
    requires LexerGrammar.Clean(body, "*/" + follow)
    ensures MaskLen("/*" + LexerGrammar.Body(body) + "*/" + follow, afterWord) == |LexerGrammar.Body(body)| + 4
  {
    LexerGrammar.BlockText(LexerGrammar.Body(body), follow);
    LexerGrammar.BlockLexeme(body, follow);
  }

  lemma RawSlices(prefix: string, hashes: nat, content: string, follow: string)
    requires 1 <= |prefix| <= 2
    ensures var p, body := |prefix|, content + Terminator(hashes) + follow;
            var t := prefix + (LexerGrammar.Hashes(hashes) + ("\"" + (content + Terminator(hashes)))) + follow;
            && |t| > p + hashes && t[..p] == prefix && t[p..] == LexerGrammar.Hashes(hashes) + ("\"" + body)
            && t[p + hashes] == '"' && t[p + hashes + 1..] == body
            && t[0] == prefix[0] && t[p - 1] == prefix[p - 1]
  {}

  lemma RawPrefixOf(t: string, prefix: Prefix)
    requires |t| >= |PrefixText(prefix)| && t[0] == PrefixText(prefix)[0] && t[|PrefixText(prefix)| - 1] == 'r'
    ensures RawToken(t, false) == RawRest(t, |PrefixText(prefix)|, HashCount(t[|PrefixText(prefix)|..]))
  {}

  lemma RawTokenIs(prefix: Prefix, hashes: nat, content: string, follow: string)
    requires forall k :: 0 <= k < |content| ==> !Starts(content[k..], Terminator(hashes))
    ensures var text := TokenText(RawString(prefix, hashes, content));
            MaskLen(text + follow, false) == |text|
  {
    hide MaskLen, RawToken, RawRest;
    var p := PrefixText(prefix);
    var t := TokenText(RawString(prefix, hashes, content)) + follow;
    RawSlices(p, hashes, content, follow);
    LexerGrammar.CountHashes(hashes, "\"" + (content + Terminator(hashes) + follow));
    LexerGrammar.FindTerminator(content, hashes, follow);
    LexerGrammar.RawRestIs(t, |p|, hashes, content, follow);
    RawPrefixOf(t, prefix);
    NotRawElse(t);
  }

  lemma NotRawElse(t: string)
    requires t != "" && t[0] in "rbc"
    ensures MaskLen(t, false) == RawToken(t, false)
  {}

  /** The mask takes exactly the text of a comment or literal. */
  lemma TokenTaken(t: Token, afterWord: bool, follow: string)
    requires TokenOk(t, afterWord, follow) && !t.Code? && !t.LongEscape?
    ensures MaskLen(TokenText(t) + follow, afterWord) == |TokenText(t)|
  {
    match t
    case LineComment(text) => LineToken(text, follow, afterWord);
    case BlockComment(body) => BlockToken(body, follow, afterWord);
    case StringLiteral(pieces) => StringToken(pieces, follow);
    case RawString(prefix, hashes, content) => RawTokenIs(prefix, hashes, content, follow);
    case CharLiteral(c) =>
    case EscapedChar(c) =>
  }

  lemma RawOpens(t: string, prefix: Prefix, p: nat, h: nat)
    requires p == |PrefixText(prefix)| && p + h < |t| && t[..p] == PrefixText(prefix)
    requires h == HashCount(t[p..]) && t[p + h] == '"'
    ensures RawOpener(t, prefix, h)
  {
    var opener := PrefixText(prefix) + (LexerGrammar.Hashes(h) + "\"");
    assert t[..p + h + 1] == opener;
  }

  /** A character that opens nothing starts no match. */
  lemma CodeStays(t: string, afterWord: bool)
    requires t != "" && OpensNothing(t, afterWord)
    ensures MaskLen(t, afterWord) == 0
  {
    if RawToken(t, afterWord) > 0 {
      var prefix := if t[0] == 'r' then Plain else if t[0] == 'b' then Byte else C;
      var p := |PrefixText(prefix)|;
      assert t[..p] == PrefixText(prefix);
      RawOpens(t, prefix, p, HashCount(t[p..]));
    }
  }

  // ----- longer escapes -----

  predicate EscapeText(u: string)
  {
    forall k :: 0 <= k < |u| ==> HexChar(u[k]) || u[k] in "xu\\"
  }

  /** No match starts at a character of an escape. */
  lemma EscapeCharStays(c: char, t: string, afterWord: bool, word: char -> bool)
    requires EscapeText([c]) && t != "" && t[0] != 'r'
    ensures CodeOnly([c] + t, afterWord, word) == [c] + CodeOnly(t, word(c), word)
  {
    var all := [c] + t;
    assert HexChar([c][0]) || [c][0] in "xu\\";
    assert all[0] == c && all[1] == t[0] && all[1..] == t;
    assert MaskLen(all, afterWord) == 0;
  }

  lemma {:induction false} EscapeStays(u: string, t: string, afterWord: bool, word: char -> bool)
    requires EscapeText(u) && t != "" && t[0] == '\''
    ensures u != "" ==> CodeOnly(u + t, afterWord, word) == u + CodeOnly(t, word(LastOf(u)), word)
    decreases |u|
  {
    hide CodeOnly;
    if u != "" {
      var more, rest := u[1..], u[1..] + t;
      assert u == [u[0]] + more && u + t == [u[0]] + rest;
      assert rest[0] == if more != "" then u[1] else '\'';
      EscapeCharStays(u[0], rest, afterWord, word);
      if more == "" {
        assert rest == t;
      } else {
        EscapeStays(more, t, word(u[0]), word);
        Assoc([u[0]], more, CodeOnly(t, word(LastOf(more)), word));
      }
    }
  }

  lemma LongEscapeText(c: char, more: string, follow: string)
    ensures TokenText(LongEscape(c, more)) + follow == "'" + (("\\" + [c] + more) + ("'" + follow))
    ensures TokenText(LongEscape(c, more)) == "'" + ("\\" + [c] + more) + "'"
  {}

  /** Nor at its first apostrophe. */
  lemma EscapeOpens(u: string, t: string, afterWord: bool, word: char -> bool)
    requires |u| > 2 && u[0] == '\\' && u[2] != '\''
    ensures CodeOnly("'" + (u + t), afterWord, word) == "'" + CodeOnly(u + t, word('\''), word)
  {
    var all := "'" + (u + t);
    assert all[1] == u[0] && all[3] == u[2] && all[1..] == u + t;
    assert MaskLen(all, afterWord) == 0;
  }

  /** Up to its last apostrophe a longer escape stays as it is. */
  lemma LongEscapeStays(c: char, more: string, follow: string, afterWord: bool, word: char -> bool)
    requires TokenOk(LongEscape(c, more), afterWord, follow)
    ensures CodeOnly(TokenText(LongEscape(c, more)) + follow, afterWord, word)
         == "'" + (("\\" + [c] + more) + CodeOnly("'" + follow, word(LastOf(more)), word))
  {
    hide CodeOnly, MaskLen;
    var u, t := "\\" + [c] + more, "'" + follow;
    LongEscapeText(c, more, follow);
    assert u[2] == more[0] && EscapeText(u) && LastOf(u) == LastOf(more);
    EscapeOpens(u, t, afterWord, word);
    EscapeStays(u, t, word('\''), word);
  }

  lemma Cancel(a: string, x: string, y: string)
    ensures a + x == a + y <==> x == y
  {
    assert (a + x)[|a|..] == x && (a + y)[|a|..] == y;
  }

  /** The last apostrophe stays exactly if it starts no char literal. */
  lemma LastApostrophe(follow: string, afterWord: bool, word: char -> bool, shown: string)
    ensures CodeOnly("'" + follow, afterWord, word) == "'" + shown
       <==> !StartsChar("'" + follow) && CodeOnly(follow, word('\''), word) == shown
  {
    var t := "'" + follow;
    assert t[1..] == follow;
    Cancel("'", CodeOnly(follow, word('\''), word), shown);
    if StartsChar(t) { assert CodeOnly(t, afterWord, word)[0] == ' '; }
  }

  lemma LongEscapeExactly(c: char, more: string, follow: string, afterWord: bool, word: char -> bool, shown: string)
    requires TokenOk(LongEscape(c, more), afterWord, follow)
    ensures CodeOnly(TokenText(LongEscape(c, more)) + follow, afterWord, word) == TokenText(LongEscape(c, more)) + shown
       <==> !StartsChar("'" + follow) && CodeOnly(follow, word('\''), word) == shown
  {
    hide CodeOnly;
    var u := "\\" + [c] + more;
    var rest := CodeOnly("'" + follow, word(LastOf(more)), word);
    LongEscapeStays(c, more, follow, afterWord, word);
    LongEscapeText(c, more, shown);
    Cancel("'", u + rest, u + ("'" + shown));
    Cancel(u, rest, "'" + shown);
    LastApostrophe(follow, word(LastOf(more)), word, shown);
  }

  // ----- the whole source -----

  lemma TokenCut(text: string, follow: string)
    requires text != ""
    ensures (text + follow)[..|text|] == text && (text + follow)[|text|..] == follow
    ensures (text + follow)[|text| - 1] == LastOf(text)
  {}

  lemma OtherExactly(t: Token, follow: string, afterWord: bool, word: char -> bool)
    requires TokenOk(t, afterWord, follow) && !t.LongEscape?
    ensures CodeOnly(TokenText(t) + follow, afterWord, word)
         == (if t.Code? then TokenText(t) else Blanks(TokenText(t))) + CodeOnly(follow, word(LastOf(TokenText(t))), word)
  {
    TokenCut(TokenText(t), follow);
    if t.Code? { CodeStays(TokenText(t) + follow, afterWord); } else { TokenTaken(t, afterWord, follow); }
  }

  /** For every well-formed source: exactly its comments, strings, raw strings
      and char literals of at most one escaped character are blanked, if and
      only if no longer escape is followed by text its last apostrophe starts a
      char literal with. */
  lemma {:induction false} MaskShowsExactly(ts: seq<Token>, afterWord: bool, word: char -> bool)
    requires WellFormed(ts, afterWord, word)
    ensures CodeOnly(Source(ts), afterWord, word) == Shown(ts) <==> Apart(ts)
    decreases |ts|
  {
    if ts != [] {
      var t, follow := ts[0], Source(ts[1..]);
      MaskShowsExactly(ts[1..], word(LastOf(TokenText(t))), word);
      if t.LongEscape? {
        assert LastOf(TokenText(t)) == '\'';
        LongEscapeExactly(t.c, t.more, follow, afterWord, word, Shown(ts[1..]));
      } else {
        OtherExactly(t, follow, afterWord, word);
        var shown := if t.Code? then TokenText(t) else Blanks(TokenText(t));
        Cancel(shown, CodeOnly(follow, word(LastOf(TokenText(t))), word), Shown(ts[1..]));
      }
    }
  }

  predicate HasLongEscape(ts: seq<Token>)
  {
    exists k :: 0 <= k < |ts| && ts[k].LongEscape?
  }

  lemma {:induction false} ShownIsMasked(ts: seq<Token>)
    ensures !HasLongEscape(ts) ==> Apart(ts)
    ensures Shown(ts) == Masked(ts) <==> !HasLongEscape(ts)
    decreases |ts|
  {
    if ts != [] {
      ShownIsMasked(ts[1..]);
      assert HasLongEscape(ts) <==> ts[0].LongEscape? || HasLongEscape(ts[1..]) by {
        if ts[0].LongEscape? {} else if HasLongEscape(ts) {
          var k :| 0 <= k < |ts| && ts[k].LongEscape?;
          assert ts[1..][k - 1].LongEscape?;
        }
      }
      var text := TokenText(ts[0]);
      if ts[0].LongEscape? {
        assert Shown(ts)[0] == '\'' && Masked(ts)[0] == ' ';
      } else {
        Cancel(if ts[0].Code? then text else Blanks(text), Shown(ts[1..]), Masked(ts[1..]));
      }
    }
  }

  /** For every well-formed source: exactly its comments and literals are
      blanked, and every code character is kept, if it has no longer escape, and,
      when its longer escapes start nothing with what follows, only if. */
  lemma MaskIsExact(ts: seq<Token>, word: char -> bool)
    requires WellFormed(ts, false, word)
    ensures !HasLongEscape(ts) ==> CodeOnly(Source(ts), false, word) == Masked(ts)
    ensures Apart(ts) && HasLongEscape(ts) ==> CodeOnly(Source(ts), false, word) != Masked(ts)
  {
    MaskShowsExactly(ts, false, word);
    ShownIsMasked(ts);
  }

  // ----- a source a longer escape derails -----

  /** `'\x41','"'` in front of any source. */
  function Derailed(ts: seq<Token>): seq<Token>
  {
    [LongEscape('x', "41")] + ([Code(',')] + ([CharLiteral('"')] + ts))
  }

  lemma Prepend(t: Token, ts: seq<Token>, afterWord: bool, word: char -> bool)
    requires TokenOk(t, afterWord, Source(ts)) && WellFormed(ts, word(LastOf(TokenText(t))), word)
    ensures WellFormed([t] + ts, afterWord, word)
    ensures Source([t] + ts) == TokenText(t) + Source(ts)
    ensures !t.Code? ==> Masked([t] + ts) == Blanks(TokenText(t)) + Masked(ts)
    ensures t.Code? ==> Masked([t] + ts) == TokenText(t) + Masked(ts)
  {
    assert ([t] + ts)[1..] == ts;
  }

  lemma CommaOpensNothing(t: string, afterWord: bool)
    ensures OpensNothing([','] + t, afterWord)
  {
    forall prefix, hashes ensures !RawOpener([','] + t, prefix, hashes) {
      assert (PrefixText(prefix) + (LexerGrammar.Hashes(hashes) + "\""))[0] != ',';
    }
  }

  lemma DerailedTokens(ts: seq<Token>, afterWord: bool, word: char -> bool)
    requires WellFormed(ts, word('\''), word)
    ensures WellFormed(Derailed(ts), afterWord, word)
    ensures Source(Derailed(ts)) == "'\\x41'" + ("," + ("'\"'" + Source(ts)))
    ensures Masked(Derailed(ts)) == "      " + ("," + ("   " + Masked(ts)))
  {
    hide Source, Masked, WellFormed;
    var ts2 := [CharLiteral('"')] + ts;
    Prepend(CharLiteral('"'), ts, word(','), word);
    CommaOpensNothing(Source(ts2), word('\''));
    Prepend(Code(','), ts2, word('\''), word);
    EscapeIs41();
    Prepend(LongEscape('x', "41"), [Code(',')] + ts2, afterWord, word);
  }

  lemma EscapeIs41()
    ensures TokenText(LongEscape('x', "41")) == "'\\x41'" && Blanks("'\\x41'") == "      " && Blanks("'\"'") == "   "
  {}

  lemma {:induction false} ClosedByNext(code: string, rest: string)
    requires '"' !in code && '\\' !in code
    ensures ClosedString(code + ("\"" + rest)) == |code| + 1
    decreases |code|
  {
    var t := code + ("\"" + rest);
    if code != "" {
      assert code[0] in code && t[1..] == code[1..] + ("\"" + rest);
      ClosedByNext(code[1..], rest);
    }
  }

  lemma QuoteHides(code: string, rest: string, afterWord: bool, word: char -> bool)
    requires '"' !in code && '\\' !in code
    ensures CodeOnly("\"" + (code + ("\"" + rest)), afterWord, word) == " " + Blanks(code) + " " + CodeOnly(rest, word('"'), word)
  {
    var t, n := "\"" + (code + ("\"" + rest)), |code| + 2;
    assert t[1..] == code + ("\"" + rest) && t[n - 1] == '"' && t[n..] == rest;
    ClosedByNext(code, rest);
    assert Blanks(t[..n]) == " " + Blanks(code) + " ";
  }

  lemma CommaLiteral(t: string, afterWord: bool, word: char -> bool)
    ensures CodeOnly("','" + t, afterWord, word) == "   " + CodeOnly(t, word('\''), word)
  {
    var u := "','" + t;
    assert u[3..] == t && MaskLen(u, afterWord) == 3 && Blanks(u[..3]) == "   ";
  }

  lemma DerailedReading(source: string, word: char -> bool)
    ensures CodeOnly("'\\x41'" + ("," + ("'\"'" + source)), false, word)
         == "'\\x41" + ("   " + CodeOnly("\"'" + source, word('\''), word))
  {
    hide CodeOnly, MaskLen;
    var follow := "," + ("'\"'" + source);
    EscapeIs41();
    assert TokenOk(LongEscape('x', "41"), false, follow);
    LongEscapeStays('x', "41", follow, false, word);
    assert "'" + follow == "','" + ("\"'" + source);
    CommaLiteral("\"'" + source, word('1'), word);
    assert "'" + ("\\" + ['x'] + "41") == "'\\x41";
    Assoc("'", "\\" + ['x'] + "41", CodeOnly("'" + follow, word('1'), word));
  }

  /** After `'\x41','"'` all code up to the next quote is blanked, although none
      of it is in a comment or literal. */
  lemma CodeIsDerailed(ts: seq<Token>, code: string, rest: string, word: char -> bool)
    requires WellFormed(ts, word('\''), word) && Source(ts) == code + ("\"" + rest) && '"' !in code && '\\' !in code
    ensures WellFormed(Derailed(ts), false, word)
    ensures Masked(Derailed(ts)) == "      " + ("," + ("   " + Masked(ts)))
    ensures CodeOnly(Source(Derailed(ts)), false, word)
         == "'\\x41" + ("   " + ("  " + Blanks(code) + " " + CodeOnly(rest, word('"'), word)))
  {
    hide CodeOnly, Source, Masked, WellFormed;
    DerailedTokens(ts, false, word);
    DerailedReading(Source(ts), word);
    assert "\"'" + Source(ts) == "\"" + (("'" + code) + ("\"" + rest));
    QuoteHides("'" + code, rest, word('\''), word);
    assert " " + Blanks("'" + code) == "  " + Blanks(code);
  }
}
