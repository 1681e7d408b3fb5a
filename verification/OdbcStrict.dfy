/** scripts/check_odbc_strict.py: the closure of module aliases and the
    offset-preserving masker `code_only`. */
module OdbcStrict {
  import opened Text
  import opened RustLexer

  // ----- alias closure -----

  /** An import item: the words it mentions and the names it introduces with `as`. */
  datatype Import = Import(words: set<string>, aliases: set<string>)

  /** One round: every import that mentions a known module contributes its aliases. */
  function Expand(imports: seq<Import>, modules: set<string>): set<string>
  {
    modules + set i, a | 0 <= i < |imports| && imports[i].words * modules != {} && a in imports[i].aliases :: a
  }

  ghost predicate Closed(imports: seq<Import>, modules: set<string>)
  {
    forall i :: 0 <= i < |imports| && imports[i].words * modules != {} ==> imports[i].aliases <= modules
  }

  ghost predicate IsLeastClosure(imports: seq<Import>, seeds: set<string>, modules: set<string>)
  {
    && seeds <= modules && Closed(imports, modules)
    && forall s: set<string> :: seeds <= s && Closed(imports, s) ==> modules <= s
  }

  function AllAliases(imports: seq<Import>): set<string>
  {
    set i, a | 0 <= i < |imports| && a in imports[i].aliases :: a
  }

  lemma ExpandStaysBelow(imports: seq<Import>, modules: set<string>, s: set<string>)
    requires modules <= s && Closed(imports, s)
    ensures Expand(imports, modules) <= s
  {
    forall a | a in Expand(imports, modules) ensures a in s {
      if a !in modules {
        var i :| 0 <= i < |imports| && imports[i].words * modules != {} && a in imports[i].aliases;
        var w :| w in imports[i].words * modules;
        assert w in imports[i].words * s;
      }
    }
  }

  /** A word is a known module exactly when a chain of imports leads to it from a seed. */
  ghost predicate Chain(imports: seq<Import>, seeds: set<string>, chain: seq<string>)
  {
    && chain != [] && chain[0] in seeds
    && forall k :: 0 <= k < |chain| - 1 ==> Contributes(imports, chain[k], chain[k + 1])
  }

  ghost predicate Contributes(imports: seq<Import>, from: string, to: string)
  {
    exists i :: 0 <= i < |imports| && from in imports[i].words && to in imports[i].aliases
  }

  ghost predicate Derived(imports: seq<Import>, seeds: set<string>, m: string)
  {
    exists chain :: Chain(imports, seeds, chain) && chain[|chain| - 1] == m
  }

  lemma {:induction false} ChainStays(imports: seq<Import>, seeds: set<string>, s: set<string>, chain: seq<string>)
    requires seeds <= s && Closed(imports, s) && Chain(imports, seeds, chain)
    ensures chain[|chain| - 1] in s
    decreases |chain|
  {
    if |chain| > 1 {
      var n := |chain| - 1;
      ChainStays(imports, seeds, s, chain[..n]);
      assert Contributes(imports, chain[n - 1], chain[n]);
      var i :| 0 <= i < |imports| && chain[n - 1] in imports[i].words && chain[n] in imports[i].aliases;
      assert chain[n - 1] in imports[i].words * s;
    }
  }

  lemma ChainGrows(imports: seq<Import>, seeds: set<string>, from: string, to: string)
    requires Derived(imports, seeds, from) && Contributes(imports, from, to)
    ensures Derived(imports, seeds, to)
  {
    var chain :| Chain(imports, seeds, chain) && chain[|chain| - 1] == from;
    assert Chain(imports, seeds, chain + [to]);
  }

  lemma ClosureIsDerivation(imports: seq<Import>, seeds: set<string>, modules: set<string>, m: string)
    requires IsLeastClosure(imports, seeds, modules)
    ensures m in modules <==> Derived(imports, seeds, m)
  {
    var derived := set x | x in modules && Derived(imports, seeds, x);
    forall x | x in seeds ensures x in derived { assert Chain(imports, seeds, [x]); }
    forall i, a | 0 <= i < |imports| && imports[i].words * derived != {} && a in imports[i].aliases
      ensures a in derived
    {
      var w :| w in imports[i].words * derived;
      assert w in imports[i].words * modules;
      assert Contributes(imports, w, a);
      ChainGrows(imports, seeds, w, a);
    }
    assert Closed(imports, derived);
    if Derived(imports, seeds, m) {
      var chain :| Chain(imports, seeds, chain) && chain[|chain| - 1] == m;
      ChainStays(imports, seeds, modules, chain);
    }
  }

  /** The answer depends on which imports there are, not on their order or
      repetition, and more imports or seeds never remove a module. */
  lemma ClosureIsMonotone(few: seq<Import>, many: seq<Import>, seeds: set<string>, more: set<string>,
                          a: set<string>, b: set<string>)
    requires (forall x :: x in few ==> x in many) && seeds <= more
    requires IsLeastClosure(few, seeds, a) && IsLeastClosure(many, more, b)
    ensures a <= b
  {
    forall i | 0 <= i < |few| && few[i].words * b != {} ensures few[i].aliases <= b {
      assert few[i] in many;
      var k :| 0 <= k < |many| && many[k] == few[i];
    }
    assert Closed(few, b);
  }

  // ----- code_only -----

  /** Length of a raw string here, 0 if none: `br`, `cr` or `r` after a word boundary. */
  function RawToken(t: string, afterWord: bool): (n: nat)
    requires t != ""
    ensures n <= |t|
  {
    var p := if t[0] == 'r' then 1 else if (t[0] == 'b' || t[0] == 'c') && |t| > 1 && t[1] == 'r' then 2 else 0;
    if afterWord || p == 0 then 0 else RawRest(t, p, HashCount(t[p..]))
  }

  /** Length of a string body up to and with its closing quote, 0 if it is never closed. */
  function ClosedString(t: string): (n: nat)
    ensures n <= |t|
    decreases |t|
  {
    if t == "" then 0
    else if t[0] == '"' then 1
    else if t[0] == '\\' && |t| == 1 then 0
    else
      var step := if t[0] == '\\' then 2 else 1;
      var n := ClosedString(t[step..]);
      if n == 0 then 0 else step + n
  }

  /** Length of `'c'` or of a one-character escape in apostrophes, 0 if neither. */
  function CharToken(t: string): (n: nat)
    ensures n <= |t|
  {
    if |t| >= 4 && t[1] == '\\' && t[3] == '\'' then 4
    else if |t| >= 3 && t[1] != '\'' && t[1] != '\\' && t[1] != '\n' && t[2] == '\'' then 3
    else 0
  }

  /** Length of the token the pattern matches here, with its tail; 0 if none. */
  function MaskLen(t: string, afterWord: bool): (n: nat)
    requires t != ""
    ensures n <= |t|
  {
    if StartsPair(t, '/', '/') then LineLen(t)
    else if StartsPair(t, '/', '*') then 2 + BlockLen(t[2..], 1)
    else if t[0] == '"' then (var n := ClosedString(t[1..]); if n == 0 then 0 else 1 + n)
    else if t[0] == '\'' then CharToken(t)
    else RawToken(t, afterWord)
  }

  /** `code_only`; `word` tells the word characters of the pattern's `\b`. */
  function CodeOnly(t: string, afterWord: bool, word: char -> bool): (r: string)
    ensures |r| == |t|
    decreases |t|
  {
    if t == "" then "" else
    var n := MaskLen(t, afterWord);
    if n == 0 then [t[0]] + CodeOnly(t[1..], word(t[0]), word)
    else Blanks(t[..n]) + CodeOnly(t[n..], word(t[n - 1]), word)
  }

  /** Every position is kept, with no comment opening at it, or blanked. */
  lemma {:induction false} CodeKeptOrBlanked(t: string, afterWord: bool, word: char -> bool, k: nat)
    requires k < |t|
    ensures var out := CodeOnly(t, afterWord, word);
            || (out[k] == t[k] && !StartsPair(t[k..], '/', '/') && !StartsPair(t[k..], '/', '*'))
            || out[k] == BlankChar(t[k])
    decreases |t|
  {
    var n := MaskLen(t, afterWord);
    if n == 0 {
      if k == 0 {
        assert t[0..] == t;
        if StartsPair(t, '/', '/') { LineCommentNotEmpty(t); }
      } else {
        assert t[1..][k - 1..] == t[k..];
        CodeKeptOrBlanked(t[1..], word(t[0]), word, k - 1);
      }
    } else if k >= n {
      assert t[n..][k - n..] == t[k..];
      CodeKeptOrBlanked(t[n..], word(t[n - 1]), word, k - n);
    }
  }

  /** `code_only` keeps every offset and every line; no comment opener survives;
      the line `location` computes for an offset is the line of the source. */
  lemma CodeOnlyKeepsOffsets(t: string, word: char -> bool)
    ensures var out := CodeOnly(t, false, word);
            && |out| == |t|
            && (forall k :: 0 <= k < |t| ==> out[k] == t[k] || (out[k] == ' ' && t[k] != '\n'))
            && (forall k :: 0 <= k < |t| - 1 ==> !(out[k] == '/' && (out[k + 1] == '/' || out[k + 1] == '*')))
            && forall offset :: 0 <= offset <= |t| ==> Newlines(out[..offset]) == Newlines(t[..offset])
  {
    var out := CodeOnly(t, false, word);
    forall k | 0 <= k < |t| ensures out[k] == t[k] || (out[k] == ' ' && t[k] != '\n') {
      CodeKeptOrBlanked(t, false, word, k);
    }
    forall k | 0 <= k < |t| - 1 ensures !(out[k] == '/' && (out[k + 1] == '/' || out[k + 1] == '*')) {
      CodeKeptOrBlanked(t, false, word, k);
      assert t[k..][1] == t[k + 1];
    }
    forall offset | 0 <= offset <= |t| ensures Newlines(out[..offset]) == Newlines(t[..offset]) {
      SameNewlines(t[..offset], out[..offset]);
    }
  }

  /** Whether a word character precedes `i`. */
  function AfterWord(source: string, word: char -> bool, i: nat): bool
    requires i <= |source|
  {
    i > 0 && word(source[i - 1])
  }

  /** Before `i` the list holds the mask, from `i` on still the source. */
  ghost predicate Masking(source: string, word: char -> bool, masked: string, i: nat)
  {
    && i <= |source| == |masked|
    && masked[i..] == source[i..]
    && CodeOnly(source, false, word) == masked[..i] + CodeOnly(source[i..], AfterWord(source, word, i), word)
  }

  lemma KeepStep(source: string, word: char -> bool, masked: string, i: nat)
    requires i < |source| && Masking(source, word, masked, i)
    requires MaskLen(source[i..], AfterWord(source, word, i)) == 0
    ensures Masking(source, word, masked, i + 1)
  {
    var t, w := source[i..], AfterWord(source, word, i);
    var rest := CodeOnly(t[1..], word(t[0]), word);
    assert CodeOnly(t, w, word) == [t[0]] + rest;
    assert t[1..] == source[i + 1..] && AfterWord(source, word, i + 1) == word(t[0]);
    assert masked[i] == masked[i..][0] == t[0] && masked[i + 1..] == masked[i..][1..];
    assert masked[..i + 1] == masked[..i] + [t[0]];
    Assoc(masked[..i], [t[0]], rest);
  }

  lemma MaskStep(source: string, word: char -> bool, masked: string, i: nat, n: nat)
    requires i < |source| && Masking(source, word, masked, i)
    requires n == MaskLen(source[i..], AfterWord(source, word, i)) > 0
    ensures Masking(source, word, Overwrite(masked, i, Blanks(source[i..i + n])), i + n)
  {
    var t, w := source[i..], AfterWord(source, word, i);
    var rest := CodeOnly(t[n..], word(t[n - 1]), word);
    assert CodeOnly(t, w, word) == Blanks(t[..n]) + rest;
    assert t[n..] == source[i + n..] && AfterWord(source, word, i + n) == word(t[n - 1]);
    assert t[..n] == source[i..i + n];
    Assoc(masked[..i], Blanks(source[i..i + n]), rest);
    var after := Overwrite(masked, i, Blanks(source[i..i + n]));
    assert after[..i + n] == masked[..i] + Blanks(source[i..i + n]);
    assert after[i + n..] == masked[i + n..] == masked[i..][n..];
  }

  /** `masked[start:start + len(text)] = text`. */
  function Overwrite(masked: string, start: nat, text: string): string
    requires start + |text| <= |masked|
  {
    masked[..start] + text + masked[start + |text|..]
  }

  lemma AllRead(source: string, word: char -> bool, masked: string)
    requires Masking(source, word, masked, |source|)
    ensures masked == CodeOnly(source, false, word)
  {
    assert source[|source|..] == "" && masked[..|source|] == masked;
  }

  // First `/*` or `*/`.
  function FindMarker(t: string): (r: Option<nat>)
    ensures r.Some? ==> r.value + 2 <= |t|
    ensures r.Some? ==> StartsPair(t[r.value..], '/', '*') || StartsPair(t[r.value..], '*', '/')
  {
    if |t| < 2 then None
    else if StartsPair(t, '/', '*') || StartsPair(t, '*', '/') then Some(0)
    else match FindMarker(t[1..])
      case None => None
      case Some(k) => assert t[1..][k..] == t[k + 1..]; Some(k + 1)
  }

  lemma {:induction false} SkipToMarker(t: string, depth: nat)
    requires depth > 0
    ensures match FindMarker(t)
            case None => BlockLen(t, depth) == |t|
            case Some(k) =>
              BlockLen(t, depth) == k + 2 + BlockLen(t[k + 2..], if t[k] == '/' then depth + 1 else depth - 1)
    decreases |t|
  {
    if |t| >= 2 && !StartsPair(t, '/', '*') && !StartsPair(t, '*', '/') {
      SkipToMarker(t[1..], depth);
      match FindMarker(t[1..])
      case None =>
      case Some(k) => assert t[1..][k + 2..] == t[k + 3..];
    }
  }

  /** Where a comment open at `depth` ends is the same seen from after its next marker. */
  ghost predicate SameEnd(source: string, i: nat, depth: nat, j: nat, after: nat)
  {
    i <= |source| && j <= |source| && i + BlockLen(source[i..], depth) == j + BlockLen(source[j..], after)
  }

  lemma SkipMarker(source: string, end: nat, depth: nat, k: nat)
    requires end <= |source| && depth > 0 && FindMarker(source[end..]) == Some(k)
    ensures SameEnd(source, end, depth, end + k + 2, if source[end + k] == '/' then depth + 1 else depth - 1)
  {
    var t := source[end..];
    var after := if t[k] == '/' then depth + 1 else depth - 1;
    assert BlockLen(t, depth) == k + 2 + BlockLen(t[k + 2..], after) by { SkipToMarker(t, depth); }
    assert t[k + 2..] == source[end + k + 2..];
  }
}
