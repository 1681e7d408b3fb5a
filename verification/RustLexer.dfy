/** `strip_noncode` of scripts/live_inventory.py: comments, strings and char
    literals become blanks, one character for one character.

    The scanner never looks back, so every specification function works on the
    text that is still to be read, and a scan answers with the number of
    characters it consumes. */
module RustLexer {
  import opened Text

  function BlankChar(c: char): char
  {
    if c == '\n' then '\n' else ' '
  }

  function Blanks(t: string): (r: string)
    ensures |r| == |t|
    ensures forall i :: 0 <= i < |t| ==> r[i] == BlankChar(t[i])
  {
    seq(|t|, i requires 0 <= i < |t| => BlankChar(t[i]))
  }

  /** Characters of a `//` comment: up to the newline, which stays outside. */
  function LineLen(t: string): (n: nat)
    ensures n <= |t|
  {
    match Find(t, "\n") case None => |t| case Some(k) => k
  }

  // Characters up to the `*/` that closes `depth` open block comments.
  function BlockLen(t: string, depth: nat): (n: nat)
    ensures n <= |t|
    decreases |t|
  {
    if t == "" || depth == 0 then 0
    else if StartsPair(t, '/', '*') then 2 + BlockLen(t[2..], depth + 1)
    else if StartsPair(t, '*', '/') then 2 + BlockLen(t[2..], depth - 1)
    else 1 + BlockLen(t[1..], depth)
  }

  /** Characters after an opening quote, closing quote included; an escape at
      the very end counts one character more than there is. */
  function StringLen(t: string): (n: nat)
    ensures n <= |t| + 1
    decreases |t|
  {
    if t == "" then 0
    else if t[0] == '\\' then if |t| == 1 then 2 else 2 + StringLen(t[2..])
    else if t[0] == '"' then 1
    else 1 + StringLen(t[1..])
  }

  function HashCount(t: string): (n: nat)
    ensures n <= |t|
    ensures forall i :: 0 <= i < n ==> t[i] == '#'
    ensures n < |t| ==> t[n] != '#'
  {
    if t != "" && t[0] == '#' then 1 + HashCount(t[1..]) else 0
  }

  /** The raw-string terminator: a quote and as many `#` as the opener had. */
  function Terminator(hashes: nat): (r: string)
    ensures |r| == hashes + 1
  {
    "\"" + seq(hashes, i => '#')
  }

  /** Characters of `r`, `br` before the hashes of a raw string opener, 0 if neither. */
  function RawPrefix(t: string): (n: nat)
    requires t != ""
    ensures n <= |t|
  {
    var b := if t[0] == 'b' then 1 else 0;
    if b < |t| && t[b] == 'r' then b + 1 else 0
  }

  /** `_raw_string`: length of a raw string literal starting here, 0 if there is none. */
  function RawLen(t: string): (n: nat)
    requires t != ""
    ensures n <= |t|
  {
    var p := RawPrefix(t);
    if p == 0 then 0 else RawRest(t, p, HashCount(t[p..]))
  }

  /** The rest of a raw string after its prefix and hashes. */
  function RawRest(t: string, p: nat, h: nat): (n: nat)
    requires p + h <= |t|
    ensures n <= |t|
  {
    if p + h == |t| || t[p + h] != '"' then 0 else
    match Find(t[p + h + 1..], Terminator(h))
    case None => |t|
    case Some(k) => p + h + 1 + k + |Terminator(h)|
  }

  /** `_char_literal`: length of a char literal starting here, 0 for a lifetime. */
  function CharLen(t: string): (n: nat)
    ensures n <= |t|
  {
    if StartsPair(t, '\'', '\\') then
      match Find(t[2..], "'") case None => 0 case Some(k) => k + 3
    else if |t| > 2 && t[2] == '\'' then 3
    else 0
  }

  /** Length of the non-code token that starts here; 0 when the character is code. */
  function TokenLen(t: string): (n: nat)
    requires t != ""
    ensures n <= |t| + 1
  {
    if StartsPair(t, '/', '/') then LineLen(t)
    else if StartsPair(t, '/', '*') then 2 + BlockLen(t[2..], 1)
    else if (t[0] == 'r' || t[0] == 'b') && RawLen(t) > 0 then RawLen(t)
    else if t[0] == '"' then 1 + StringLen(t[1..])
    else if t[0] == '\'' then CharLen(t)
    else 0
  }

  /** What `strip_noncode` returns. */
  function StripNoncode(t: string): (r: string)
    ensures |r| == |t|
    decreases |t|
  {
    if t == "" then "" else
    var n := TokenLen(t);
    if n == 0 then [t[0]] + StripNoncode(t[1..])
    else if n >= |t| then Blanks(t)
    else Blanks(t[..n]) + StripNoncode(t[n..])
  }

  lemma LineCommentNotEmpty(t: string)
    requires StartsPair(t, '/', '/')
    ensures LineLen(t) > 0
  {
    assert t[0] == '/';
  }

  /** Every position is either kept, and then no token starts at it, or blanked. */
  lemma {:induction false} KeptOrBlanked(t: string, k: nat)
    requires k < |t|
    ensures || (StripNoncode(t)[k] == t[k] && TokenLen(t[k..]) == 0)
            || StripNoncode(t)[k] == BlankChar(t[k])
    decreases |t|
  {
    var n := TokenLen(t);
    if n == 0 {
      if k == 0 {
        assert t[0..] == t;
      } else {
        assert t[1..][k - 1..] == t[k..];
        KeptOrBlanked(t[1..], k - 1);
      }
    } else if n < |t| && k >= n {
      assert t[n..][k - n..] == t[k..];
      KeptOrBlanked(t[n..], k - n);
    }
  }

  /** Offsets and lines survive: same length, and every character is kept or
      replaced by a space, newlines always kept. */
  lemma StripKeepsPositions(t: string)
    ensures |StripNoncode(t)| == |t|
    ensures forall k :: 0 <= k < |t| ==> StripNoncode(t)[k] == t[k] || (StripNoncode(t)[k] == ' ' && t[k] != '\n')
  {
    forall k | 0 <= k < |t|
      ensures StripNoncode(t)[k] == t[k] || (StripNoncode(t)[k] == ' ' && t[k] != '\n')
    {
      KeptOrBlanked(t, k);
    }
  }

  /** Line numbers computed on the masked text are those of the source. */
  lemma StripKeepsLines(t: string, offset: nat)
    requires offset <= |t|
    ensures Newlines(StripNoncode(t)[..offset]) == Newlines(t[..offset])
  {
    StripKeepsPositions(t);
    SameNewlines(t[..offset], StripNoncode(t)[..offset]);
  }

  /** A position of a masked text: kept code, or blank. */
  ghost predicate MaskedAt(t: string, out: string, k: nat)
    requires |out| == |t| && k < |t|
  {
    (out[k] == t[k] && TokenLen(t[k..]) == 0) || out[k] == BlankChar(t[k])
  }

  /** No quote and no comment opener survives masking. */
  lemma NoOpenerSurvives(t: string, out: string, k: nat)
    requires |out| == |t| && forall i :: 0 <= i < |t| ==> MaskedAt(t, out, i)
    requires k < |t|
    ensures out[k] != '"'
    ensures !StartsPair(out[k..], '/', '/') && !StartsPair(out[k..], '/', '*')
  {
    assert MaskedAt(t, out, k);
    assert t[k..][0] == t[k];
    if k + 1 < |t| {
      assert MaskedAt(t, out, k + 1);
      assert t[k..][1] == t[k + 1];
      if StartsPair(t[k..], '/', '/') { LineCommentNotEmpty(t[k..]); }
    }
  }

  /** A kept apostrophe is a lifetime in the output as well. */
  lemma LifetimeStays(t: string, out: string, k: nat)
    requires |out| == |t| && forall i :: 0 <= i < |t| ==> MaskedAt(t, out, i)
    requires k < |t| && out[k] == '\''
    ensures CharLen(out[k..]) == 0
  {
    assert MaskedAt(t, out, k);
    var v, o := t[k..], out[k..];
    assert v[0] == '\'' && CharLen(v) == 0;
    if k + 2 < |t| {
      assert MaskedAt(t, out, k + 2);
      assert v[2] == t[k + 2] && o[2] == out[k + 2];
    }
    if k + 1 < |t| {
      assert MaskedAt(t, out, k + 1);
      assert v[1] == t[k + 1] && o[1] == out[k + 1];
    }
    if StartsPair(o, '\'', '\\') && Find(o[2..], "'").Some? {
      var j := Find(o[2..], "'").value;
      assert o[2..][j..][..1] == "'" && out[k + 2 + j] == o[2..][j..][0];
      assert MaskedAt(t, out, k + 2 + j);
      assert v[2..][j..][..1] == "'";
      FindIsFirst(v[2..], "'", j);
    }
  }

  /** Nothing starts a token in a masked text. */
  lemma NothingToMask(t: string, out: string, k: nat)
    requires |out| == |t| && forall i :: 0 <= i < |t| ==> MaskedAt(t, out, i)
    requires k < |t|
    ensures TokenLen(out[k..]) == 0
  {
    NoOpenerSurvives(t, out, k);
    var o := out[k..];
    if o[0] == 'r' || o[0] == 'b' {
      if RawLen(o) > 0 {
        var p := RawPrefix(o);
        NoOpenerSurvives(t, out, k + p + HashCount(o[p..]));
      }
    }
    if o[0] == '\'' {
      LifetimeStays(t, out, k);
    }
  }

  lemma {:induction false} NoTokenNoChange(t: string)
    requires forall k :: 0 <= k < |t| ==> TokenLen(t[k..]) == 0
    ensures StripNoncode(t) == t
  {
    if t != "" {
      assert t[0..] == t;
      forall k | 0 <= k < |t[1..]|
        ensures TokenLen(t[1..][k..]) == 0
      {
        assert t[1..][k..] == t[k + 1..];
      }
      NoTokenNoChange(t[1..]);
    }
  }

  /** Masking twice is masking once, for every text. */
  lemma StripIsIdempotent(t: string)
    ensures StripNoncode(StripNoncode(t)) == StripNoncode(t)
  {
    var out := StripNoncode(t);
    forall i | 0 <= i < |t| ensures MaskedAt(t, out, i) { KeptOrBlanked(t, i); }
    forall k | 0 <= k < |out| ensures TokenLen(out[k..]) == 0 { NothingToMask(t, out, k); }
    NoTokenNoChange(out);
  }

  // The output holds no quote, no `//` and no `/*`, and every apostrophe in it is a lifetime.
  lemma StripLeavesOnlyCode(t: string, k: nat)
    requires k < |t|
    ensures var out := StripNoncode(t);
            && out[k] != '"' && !StartsPair(out[k..], '/', '/') && !StartsPair(out[k..], '/', '*')
            && (out[k] == '\'' ==> CharLen(out[k..]) == 0)
  {
    var out := StripNoncode(t);
    forall i | 0 <= i < |t| ensures MaskedAt(t, out, i) { KeptOrBlanked(t, i); }
    NoOpenerSurvives(t, out, k);
    if out[k] == '\'' { LifetimeStays(t, out, k); }
  }

  // ----- how far the scanner has come -----

  /** After reading up to `index` the scanner has written the masked prefix. */
  ghost predicate Progress(source: string, out: string, index: nat)
  {
    StripNoncode(source) == out + (if index < |source| then StripNoncode(source[index..]) else "")
  }

  lemma StripUnfolds(t: string)
    requires t != ""
    ensures TokenLen(t) == 0 ==> StripNoncode(t) == [t[0]] + StripNoncode(t[1..])
    ensures 0 < TokenLen(t) < |t| ==> StripNoncode(t) == Blanks(t[..TokenLen(t)]) + StripNoncode(t[TokenLen(t)..])
    ensures TokenLen(t) >= |t| ==> StripNoncode(t) == Blanks(t)
  {}

  lemma StripAtCode(source: string, i: nat)
    requires i < |source| && TokenLen(source[i..]) == 0
    ensures StripNoncode(source[i..]) == [source[i]] + StripNoncode(source[i + 1..])
  {
    StripUnfolds(source[i..]);
    assert source[i..][1..] == source[i + 1..];
  }

  lemma StripAtToken(source: string, i: nat, end: nat)
    requires i < end < |source| && TokenLen(source[i..]) == end - i
    ensures StripNoncode(source[i..]) == Blanks(source[i..end]) + StripNoncode(source[end..])
  {
    SuffixSlices(source, i, end);
    TokenFirst(source[i..], source[i..end], source[end..]);
  }

  lemma TokenFirst(t: string, token: string, rest: string)
    requires t != "" && 0 < |token| == TokenLen(t) < |t| && t[..|token|] == token && t[|token|..] == rest
    ensures StripNoncode(t) == Blanks(token) + StripNoncode(rest)
  {
    StripUnfolds(t);
  }

  lemma ProgressStep(source: string, out: string, index: nat, next: nat, masked: string)
    requires index < next <= |source| && Progress(source, out, index)
    requires StripNoncode(source[index..]) == masked + StripNoncode(source[next..])
    ensures Progress(source, out + masked, next)
  {
    Assoc(out, masked, StripNoncode(source[next..]));
    if next == |source| { assert source[next..] == ""; }
  }

  lemma CodeStep(source: string, out: string, index: nat)
    requires index < |source| && Progress(source, out, index) && TokenLen(source[index..]) == 0
    ensures Progress(source, out + [source[index]], index + 1)
  {
    StripAtCode(source, index);
    ProgressStep(source, out, index, index + 1, [source[index]]);
  }

  lemma TokenStep(source: string, out: string, index: nat, end: nat)
    requires index < end < |source| && Progress(source, out, index) && TokenLen(source[index..]) == end - index
    ensures Progress(source, out + Blanks(source[index..end]), end)
  {
    StripAtToken(source, index, end);
    ProgressStep(source, out, index, end, Blanks(source[index..end]));
  }

  lemma LastStep(source: string, out: string, index: nat, end: nat)
    requires index < |source| <= end && Progress(source, out, index) && TokenLen(source[index..]) == end - index
    ensures Progress(source, out + Blanks(source[index..]), end)
  {
    StripUnfolds(source[index..]);
  }
}
