/** The loops of scripts/check_odbc_strict.py, each proved against its specification. */
module OdbcChecker {
  import opened Text
  import opened RustLexer
  import opened OdbcStrict

  /** The loop of `inspect`: it ends, in the least set that holds the seeds and is closed. */
  method ModuleAliases(imports: seq<Import>, seeds: set<string>) returns (modules: set<string>)
    ensures IsLeastClosure(imports, seeds, modules)
  {
    modules := seeds;
    ghost var all := seeds + AllAliases(imports);
    while true
      invariant seeds <= modules <= all
      invariant forall s: set<string> :: seeds <= s && Closed(imports, s) ==> modules <= s
      decreases all - modules
    {
      var expanded := Expand(imports, modules);
      if expanded == modules {
        assert Closed(imports, modules) by {
          forall i, a | 0 <= i < |imports| && imports[i].words * modules != {} && a in imports[i].aliases
            ensures a in modules
          {
            assert a in expanded;
          }
        }
        return;
      }
      forall s: set<string> | seeds <= s && Closed(imports, s) ensures expanded <= s {
        ExpandStaysBelow(imports, modules, s);
      }
      assert modules < expanded <= all;
      modules := expanded;
    }
  }

  /** Length of the match at `offset` with its tail; a block comment is followed marker by marker. */
  method MatchLen(source: string, word: char -> bool, offset: nat) returns (n: nat)
    requires offset < |source|
    ensures n == MaskLen(source[offset..], AfterWord(source, word, offset))
  {
    if StartsPair(source[offset..], '/', '*') {
      SuffixSlices(source, offset, offset + 2);
      var end := NestedCommentEnd(source, offset + 2);
      return end - offset;
    }
    return MaskLen(source[offset..], AfterWord(source, word, offset));
  }

  /** One turn of `code_only`: overwrite the match at `offset`, or pass over a code character. */
  method MaskNext(source: string, word: char -> bool, masked: string, offset: nat) returns (next: string, after: nat)
    requires offset < |source| && Masking(source, word, masked, offset)
    ensures offset < after && Masking(source, word, next, after)
  {
    var n := MatchLen(source, word, offset);
    if n == 0 {
      KeepStep(source, word, masked, offset);
      return masked, offset + 1;
    }
    MaskStep(source, word, masked, offset, n);
    return Overwrite(masked, offset, Blanks(source[offset..offset + n])), offset + n;
  }

  /** The loop of `code_only`: go on after each match. */
  method CodeOnlyLoop(source: string, word: char -> bool) returns (masked: string)
    ensures masked == CodeOnly(source, false, word)
  {
    masked := source;
    var offset := 0;
    assert source[0..] == source && source[..0] == "";
    while offset < |source|
      invariant Masking(source, word, masked, offset)
      decreases |source| - offset
    {
      masked, offset := MaskNext(source, word, masked, offset);
    }
    AllRead(source, word, masked);
  }

  // The comment loop of `code_only`: jump from marker to marker. It stops
  // where the character-by-character scan of `strip_noncode` stops.
  method NestedCommentEnd(source: string, start: nat) returns (end: nat)
    requires start <= |source|
    ensures end == start + BlockLen(source[start..], 1)
  {
    var depth := 1;
    end := start;
    while depth > 0
      invariant SameEnd(source, start, 1, end, depth)
      decreases |source| - end
    {
      var marker := NextMarker(source, end, depth);
      if marker == None {
        return |source|;
      }
      end, depth := marker.value.0, marker.value.1;
    }
  }

  // The next `/*` or `*/` at or after `end`: where it ends, and the depth after it.
  method NextMarker(source: string, end: nat, depth: nat) returns (r: Option<(nat, nat)>)
    requires end <= |source| && depth > 0
    ensures r == None ==> end + BlockLen(source[end..], depth) == |source|
    ensures r.Some? ==> end < r.value.0 && SameEnd(source, end, depth, r.value.0, r.value.1)
  {
    var t := source[end..];
    var marker := FindMarker(t);
    if marker == None {
      SkipToMarker(t, depth);
      return None;
    }
    var k := marker.value;
    SkipMarker(source, end, depth, k);
    return Some((end + k + 2, if source[end + k] == '/' then depth + 1 else depth - 1));
  }
}
