/** What both maskers make of a comment or literal that is never closed. */
module UnclosedTokens {
  import opened Text
  import opened RustLexer
  import LexerGrammar
  import OdbcGrammar
  import OdbcStrict

  /** Up to the end of the text: a comment without its end, a string without a
      closing quote (`cut`: it ends in a backslash), a raw string without its
      terminator. */
  datatype Unclosed =
    | OpenComment(text: string)
    | OpenString(pieces: seq<LexerGrammar.Piece>, cut: bool)
    | OpenRaw(prefix: OdbcGrammar.Prefix, hashes: nat, content: string)

  function StringText(pieces: seq<LexerGrammar.Piece>, cut: bool): string
  {
    LexerGrammar.PieceText(pieces) + if cut then "\\" else ""
  }

  function UnclosedText(u: Unclosed): (t: string)
    ensures t != ""
  {
    match u
    case OpenComment(text) => "/*" + text
    case OpenString(pieces, cut) => "\"" + StringText(pieces, cut)
    case OpenRaw(prefix, hashes, content) =>
      OdbcGrammar.PrefixText(prefix) + (LexerGrammar.Hashes(hashes) + ("\"" + content))
  }

  predicate NoCloser(t: string)
  {
    forall k :: 0 <= k < |t| - 1 ==> !(t[k] == '*' && t[k + 1] == '/')
  }

  predicate NoTerminator(content: string, hashes: nat)
  {
    forall k :: 0 <= k < |content| ==> !Starts(content[k..], Terminator(hashes))
  }

  predicate UnclosedOk(u: Unclosed)
  {
    match u
    case OpenComment(text) => NoCloser(text)
    case OpenString(pieces, _) => LexerGrammar.PiecesOk(pieces)
    case OpenRaw(_, hashes, content) => NoTerminator(content, hashes)
  }

  lemma {:induction false} CommentRunsOn(t: string, depth: nat)
    requires NoCloser(t) && depth > 0
    ensures BlockLen(t, depth) == |t|
    decreases |t|
  {
    if StartsPair(t, '/', '*') {
      CommentRunsOn(t[2..], depth + 1);
    } else if t != "" {
      CommentRunsOn(t[1..], depth);
    }
  }

  lemma {:induction false} StringRunsOn(pieces: seq<LexerGrammar.Piece>, cut: bool)
    requires LexerGrammar.PiecesOk(pieces)
    ensures StringLen(StringText(pieces, cut)) >= |StringText(pieces, cut)|
    ensures OdbcStrict.ClosedString(StringText(pieces, cut)) == 0
    decreases |pieces|
  {
    var t := StringText(pieces, cut);
    if pieces != [] {
      var rest := StringText(pieces[1..], cut);
      StringRunsOn(pieces[1..], cut);
      if pieces[0].Raw? {
        assert t == [pieces[0].c] + rest;
      } else {
        assert t == ['\\', pieces[0].c] + rest && t[2..] == rest;
      }
    }
  }

  lemma {:induction false} TerminatorMissing(content: string, hashes: nat)
    requires NoTerminator(content, hashes)
    ensures Find(content, Terminator(hashes)) == None
    decreases |content|
  {
    if content != "" {
      assert content[0..] == content;
      forall k | 0 <= k < |content[1..]| ensures content[1..][k..] == content[k + 1..] {}
      TerminatorMissing(content[1..], hashes);
    }
  }

  lemma RawRunsOn(prefix: OdbcGrammar.Prefix, hashes: nat, content: string)
    requires NoTerminator(content, hashes)
    ensures var t, p := UnclosedText(OpenRaw(prefix, hashes, content)), |OdbcGrammar.PrefixText(prefix)|;
            t[..p] == OdbcGrammar.PrefixText(prefix) && HashCount(t[p..]) == hashes && RawRest(t, p, hashes) == |t|
  {
    var t, p := UnclosedText(OpenRaw(prefix, hashes, content)), |OdbcGrammar.PrefixText(prefix)|;
    hide HashCount, Find, Terminator;
    TerminatorMissing(content, hashes);
    LexerGrammar.CountHashes(hashes, "\"" + content);
    RawPieces(OdbcGrammar.PrefixText(prefix), hashes, content, t);
  }

  lemma RawPieces(prefix: string, hashes: nat, content: string, t: string)
    requires t == prefix + (LexerGrammar.Hashes(hashes) + ("\"" + content))
    ensures var p := |prefix|;
            && |t| > p + hashes && t[..p] == prefix && t[p..] == LexerGrammar.Hashes(hashes) + ("\"" + content)
            && t[p + hashes] == '"' && t[p + hashes + 1..] == content
  {}

  lemma StripTaken(u: Unclosed)
    requires UnclosedOk(u) && (u.OpenRaw? ==> !u.prefix.C?)
    ensures TokenLen(UnclosedText(u)) >= |UnclosedText(u)|
  {
    var t := UnclosedText(u);
    match u {
      case OpenComment(text) =>
        CommentRunsOn(text, 1);
        assert t[2..] == text;
      case OpenString(pieces, cut) =>
        StringRunsOn(pieces, cut);
        hide StringText;
        assert t[1..] == StringText(pieces, cut);
      case OpenRaw(prefix, hashes, content) =>
        RawRunsOn(prefix, hashes, content);
        RawTaken(t, |OdbcGrammar.PrefixText(prefix)|, hashes);
    }
  }

  lemma RawTaken(t: string, p: nat, hashes: nat)
    requires p == 1 || p == 2
    requires |t| >= p && t[..p] == (if p == 2 then "br" else "r")
    requires HashCount(t[p..]) == hashes && RawRest(t, p, hashes) == |t|
    ensures TokenLen(t) == |t|
  {
    assert t[..p][0] == t[0] && t[..p][p - 1] == t[p - 1];
    hide RawRest, HashCount;
    assert RawPrefix(t) == p;
  }

  /** `strip_noncode` blanks the text to its end. */
  lemma StripBlanksUnclosed(u: Unclosed)
    requires UnclosedOk(u) && (u.OpenRaw? ==> !u.prefix.C?)
    ensures StripNoncode(UnclosedText(u)) == Blanks(UnclosedText(u))
  {
    StripTaken(u);
    hide TokenLen, UnclosedText;
  }

  lemma MaskTaken(u: Unclosed)
    requires UnclosedOk(u)
    ensures OdbcStrict.MaskLen(UnclosedText(u), false) == if u.OpenString? then 0 else |UnclosedText(u)|
  {
    var t := UnclosedText(u);
    match u {
      case OpenComment(text) =>
        CommentRunsOn(text, 1);
        assert t[2..] == text;
      case OpenString(pieces, cut) =>
        StringRunsOn(pieces, cut);
        hide StringText;
        assert t[1..] == StringText(pieces, cut);
      case OpenRaw(prefix, hashes, content) =>
        RawRunsOn(prefix, hashes, content);
        hide RawRest, HashCount;
        OdbcGrammar.RawPrefixOf(t, prefix);
        OdbcGrammar.NotRawElse(t);
    }
  }

  /** `code_only` blanks a comment or raw string to the end of the text, and takes
      a string that is not closed for code. */
  lemma MaskBlanksUnclosed(u: Unclosed, word: char -> bool)
    requires UnclosedOk(u)
    ensures OdbcStrict.CodeOnly(UnclosedText(u), false, word)
         == if u.OpenString? then "\"" + OdbcStrict.CodeOnly(UnclosedText(u)[1..], word('"'), word) else Blanks(UnclosedText(u))
  {
    var t := UnclosedText(u);
    MaskTaken(u);
    assert u.OpenString? ==> t[0] == '"';
    hide OdbcStrict.MaskLen, UnclosedText;
    assert t[|t|..] == "" && t[..|t|] == t;
  }
}
