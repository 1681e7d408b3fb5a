/** `cfg_test_items` and `count_rust` of scripts/code_size.py: the spans of test
    modules are nested or disjoint, and deleting them is right exactly when no
    product text follows a module that holds another one. */
module TestModules {
  import opened Text
  import opened Balanced
  import opened Spans

  /** A match of the module pattern: `inline` if it ends with the opening brace,
      otherwise it ends with the semicolon of an external module. */
  datatype Match = Match(start: nat, end: nat, inline: bool)

  ghost predicate BraceBalanced(t: string)
  {
    exists w: Word :: PlainOnly(w, '{', '}') && Print(w, '{', '}') == t
  }

  /** Matches in text order, as `finditer` yields them; attributes in a header are balanced. */
  ghost predicate MatchOk(code: string, m: Match)
  {
    && m.start < m.end <= |code|
    && (m.inline ==> code[m.end - 1] == '{' && BraceBalanced(code[m.start..m.end - 1]))
    && (!m.inline ==> BraceBalanced(code[m.start..m.end]))
  }

  ghost predicate MatchesOk(code: string, ms: seq<Match>)
  {
    && (forall i :: 0 <= i < |ms| ==> MatchOk(code, ms[i]))
    && (forall i, j :: 0 <= i < j < |ms| ==> ms[i].end <= ms[j].start)
  }

  /** The end of a module: past its closing brace, or past its semicolon. */
  function EndOf(code: string, m: Match): Option<nat>
    requires m.end <= |code|
  {
    if !m.inline then Some(m.end)
    else match CloseAt(code[m.end..], '{', '}', 1) case None => None case Some(k) => Some(m.end + k + 1)
  }

  function SpanOf(code: string, m: Match): Span
    requires m.end <= |code| && EndOf(code, m).Some?
  {
    Span(m.start, EndOf(code, m).value)
  }

  ghost predicate Closed(code: string, ms: seq<Match>)
    requires MatchesOk(code, ms)
  {
    forall i :: 0 <= i < |ms| ==> EndOf(code, ms[i]).Some?
  }

  function SpansOf(code: string, ms: seq<Match>): (r: seq<Span>)
    requires forall i :: 0 <= i < |ms| ==> ms[i].end <= |code| && EndOf(code, ms[i]).Some?
    ensures |r| == |ms| && forall i :: 0 <= i < |ms| ==> r[i] == SpanOf(code, ms[i])
  {
    seq(|ms|, i requires 0 <= i < |ms| => SpanOf(code, ms[i]))
  }

  // ----- nested or disjoint -----

  /** Where the depth stands when a scan has passed `u` without closing. */
  lemma {:induction false} ScanPasses(u: string, t: string, depth: int) returns (d: int)
    requires depth >= 1 && CloseAt(u + t, '{', '}', depth).Some? && CloseAt(u + t, '{', '}', depth).value >= |u|
    ensures d >= 1 && CloseAt(t, '{', '}', d).Some?
    ensures CloseAt(u + t, '{', '}', depth).value == |u| + CloseAt(t, '{', '}', d).value
    decreases |u|
  {
    if u == "" {
      assert u + t == t;
      d := depth;
    } else {
      assert (u + t)[1..] == u[1..] + t && (u + t)[0] == u[0];
      d := ScanPasses(u[1..], t, if u[0] == '{' then depth + 1 else if u[0] == '}' then depth - 1 else depth);
    }
  }

  /** From the lowest depth the scan stops first. */
  lemma {:induction false} LowerStopsEarlier(t: string, d: int)
    requires d >= 1 && CloseAt(t, '{', '}', d).Some?
    ensures CloseAt(t, '{', '}', 1).Some? && CloseAt(t, '{', '}', 1).value <= CloseAt(t, '{', '}', d).value
    ensures d > 1 ==> CloseAt(t, '{', '}', 1).value < CloseAt(t, '{', '}', d).value
    decreases d
  {
    if d > 1 {
      SplitDeeper(t, '{', '}', d - 1);
      LowerStopsEarlier(t, d - 1);
    }
  }

  lemma BalancedIsPassed(h: string, t: string, d: int)
    requires BraceBalanced(h) && d >= 1 && CloseAt(h + t, '{', '}', d).Some?
    ensures CloseAt(t, '{', '}', d).Some? && CloseAt(h + t, '{', '}', d).value == |h| + CloseAt(t, '{', '}', d).value
  {
    var w: Word :| PlainOnly(w, '{', '}') && Print(w, '{', '}') == h;
    ScanSkipsWord(w, '{', '}', t, d);
  }

  /** A module whose header starts before `at`, the closing position of the
      enclosing scan, is closed no later. */
  lemma InnerEnds(code: string, m: Match, d: int)
    requires MatchOk(code, m) && d >= 1 && CloseAt(code[m.start..], '{', '}', d).Some?
    ensures EndOf(code, m).Some? && EndOf(code, m).value <= m.start + CloseAt(code[m.start..], '{', '}', d).value
  {
    var stop := if m.inline then m.end - 1 else m.end;
    var h, t := code[m.start..stop], code[stop..];
    assert code[m.start..] == h + t;
    BalancedIsPassed(h, t, d);
    if m.inline {
      assert t[0] == '{' && t[1..] == code[m.end..];
      LowerStopsEarlier(code[m.end..], d + 1);
    }
  }

  predicate Inside(inner: Span, outer: Span)
  {
    outer.start < inner.start && inner.end <= outer.end
  }

  /** A later module starts after an earlier one ends, or lies inside it. */
  lemma NestedOrDisjoint(code: string, a: Match, b: Match)
    requires MatchOk(code, a) && MatchOk(code, b) && a.end <= b.start && EndOf(code, a).Some?
    ensures EndOf(code, a).value <= b.start
         || (EndOf(code, b).Some? && Inside(SpanOf(code, b), SpanOf(code, a)))
  {
    if b.start < EndOf(code, a).value {
      var u, t := code[a.end..b.start], code[b.start..];
      assert code[a.end..] == u + t;
      var d := ScanPasses(u, t, 1);
      InnerEnds(code, b, d);
    }
  }

  predicate NestedOrApart(spans: seq<Span>)
  {
    forall i, j :: 0 <= i < j < |spans| ==> spans[i].end <= spans[j].start || Inside(spans[j], spans[i])
  }

  lemma ScannedSpans(code: string, ms: seq<Match>)
    requires MatchesOk(code, ms) && Closed(code, ms)
    ensures SpansOk(|code|, SpansOf(code, ms)) && NestedOrApart(SpansOf(code, ms))
  {
    var spans := SpansOf(code, ms);
    forall i, j | 0 <= i < j < |spans|
      ensures spans[i].start < spans[j].start
      ensures spans[i].end <= spans[j].start || Inside(spans[j], spans[i])
    {
      assert MatchOk(code, ms[i]) && MatchOk(code, ms[j]);
      NestedOrDisjoint(code, ms[i], ms[j]);
    }
  }

  /** No product text follows a test module that holds another test module. */
  predicate NothingAfterNested(n: nat, spans: seq<Span>)
  {
    forall i, j, p :: 0 <= i < j < |spans| && Inside(spans[j], spans[i]) && spans[i].end <= p < n ==> Covered(spans, p)
  }

  /** Deleting the test modules of a source leaves exactly the product text, if
      and only if no product text follows a test module that holds another;
      otherwise product text is lost. */
  lemma DeletionOfTestModules(source: string, code: string, ms: seq<Match>)
    requires |source| == |code| && MatchesOk(code, ms) && Closed(code, ms)
    ensures var spans := SpansOf(code, ms);
            && (Without(source, spans) == Kept(source, spans) <==> NothingAfterNested(|source|, spans))
            && (!NothingAfterNested(|source|, spans) ==> |Without(source, spans)| < |Kept(source, spans)|)
  {
    var spans := SpansOf(code, ms);
    ScannedSpans(code, ms);
    DeletionIsExactlyRight(source, spans);
    HarmlessIsNothingAfter(|source|, spans);
  }

  lemma HarmlessIsNothingAfter(n: nat, spans: seq<Span>)
    requires SpansOk(n, spans) && NestedOrApart(spans)
    ensures HarmlessOverlaps(n, spans) <==> NothingAfterNested(n, spans)
  {
    if HarmlessOverlaps(n, spans) {
      forall i, j, p | 0 <= i < j < |spans| && Inside(spans[j], spans[i]) && spans[i].end <= p < n ensures Covered(spans, p) {
        assert !Covered(spans, p) ==> CleanUpTo(spans, p);
      }
    }
    if NothingAfterNested(n, spans) {
      forall p: nat | p < n && !Covered(spans, p) ensures CleanUpTo(spans, p) {
        forall i, j | 0 <= i < j < |spans| && spans[j].start < spans[i].end ensures p < spans[i].end {
          assert Inside(spans[j], spans[i]);
        }
      }
    }
  }

  // ----- the program -----

  /** `spans.sort()`: one span put in its place. */
  method Insert(sorted: seq<Span>, s: Span) returns (r: seq<Span>)
    requires Sorted(sorted)
    ensures Sorted(r) && multiset(r) == multiset(sorted) + multiset{s}
  {
    var k := 0;
    while k < |sorted| && sorted[k].start < s.start
      invariant k <= |sorted| && forall i :: 0 <= i < k ==> sorted[i].start < s.start
    {
      k := k + 1;
    }
    r := sorted[..k] + [s] + sorted[k..];
    InsertedSpans(sorted, k, s);
    SortedAround(sorted, k, s);
  }

  lemma InsertedSpans(sorted: seq<Span>, k: nat, s: Span)
    requires k <= |sorted|
    ensures multiset(sorted[..k] + [s] + sorted[k..]) == multiset(sorted) + multiset{s}
  {
    assert sorted == sorted[..k] + sorted[k..];
  }

  lemma SortedAround(sorted: seq<Span>, k: nat, s: Span)
    requires Sorted(sorted) && k <= |sorted|
    requires forall i :: 0 <= i < k ==> sorted[i].start < s.start
    requires k < |sorted| ==> s.start <= sorted[k].start
    ensures Sorted(sorted[..k] + [s] + sorted[k..])
  {
    var r := sorted[..k] + [s] + sorted[k..];
    forall i, j | 0 <= i < j < |r| ensures r[i].start <= r[j].start {
      assert i < k ==> r[i] == sorted[i];
      assert j > k ==> r[j] == sorted[j - 1];
    }
  }

  predicate Sorted(spans: seq<Span>)
  {
    forall i, j :: 0 <= i < j < |spans| ==> spans[i].start <= spans[j].start
  }

  predicate Rising(spans: seq<Span>)
  {
    forall i, j :: 0 <= i < j < |spans| ==> spans[i].start < spans[j].start
  }

  lemma TailSpans(a: seq<Span>)
    requires a != []
    ensures multiset(a[1..]) == multiset(a) - multiset{a[0]} && a[0] in multiset(a)
  {
    assert a == [a[0]] + a[1..];
  }

  /** Of lists with the same spans, whose starts are all different, only one is sorted. */
  lemma {:induction false} SortedIsUnique(a: seq<Span>, b: seq<Span>)
    requires Sorted(a) && Rising(b) && multiset(a) == multiset(b)
    ensures a == b
    decreases |b|
  {
    SameSize(a, b);
    if b != [] {
      TailSpans(a);
      TailSpans(b);
      SameFirst(a, b);
      SortedIsUnique(a[1..], b[1..]);
      Recombine(a, b);
    }
  }

  lemma SameSize(a: seq<Span>, b: seq<Span>)
    requires multiset(a) == multiset(b)
    ensures |a| == |b|
  {
    assert |multiset(a)| == |a| && |multiset(b)| == |b|;
  }

  lemma Recombine(a: seq<Span>, b: seq<Span>)
    requires a != [] && b != [] && a[0] == b[0] && a[1..] == b[1..]
    ensures a == b
  {
    assert a == [a[0]] + a[1..] && b == [b[0]] + b[1..];
  }

  lemma SameFirst(a: seq<Span>, b: seq<Span>)
    requires Sorted(a) && Rising(b) && a != [] && b != [] && a[0] in b && b[0] in a
    ensures a[0] == b[0]
  {
    var i :| 0 <= i < |b| && b[i] == a[0];
    var j :| 0 <= j < |a| && a[j] == b[0];
    assert a[0].start <= a[j].start;
  }

  /** The end of one module, found by the brace loop. */
  method FindEnd(code: string, m: Match) returns (end: Option<nat>)
    requires MatchOk(code, m)
    ensures end == EndOf(code, m)
  {
    if !m.inline { return Some(m.end); }
    end := ModuleEnd(code, m.end - 1);
  }

  /** The modules before `i` are closed, and `found` are the spans of the inline, or the external, ones. */
  ghost predicate Gathered(code: string, ms: seq<Match>, i: nat, inline: bool, found: seq<Span>)
    requires MatchesOk(code, ms)
  {
    && i <= |ms| && (forall k :: 0 <= k < i ==> EndOf(code, ms[k]).Some?)
    && multiset(found) == Collected(code, ms[..i], inline)
  }

  /** One turn of the loop of `cfg_test_items`. */
  method GatherInline(code: string, ms: seq<Match>, i: nat, found: seq<Span>) returns (more: Option<seq<Span>>)
    requires MatchesOk(code, ms) && i < |ms| && Gathered(code, ms, i, true, found)
    ensures more.Some? <==> EndOf(code, ms[i]).Some?
    ensures more.Some? ==> Gathered(code, ms, i + 1, true, more.value)
  {
    var end := FindEnd(code, ms[i]);
    if end == None { return None; }
    CollectedSnoc(code, ms, i, true);
    if ms[i].inline { return Some(found + [Span(ms[i].start, end.value)]); }
    return Some(found);
  }

  /** `cfg_test_items` on the matches: the spans of the inline modules, `None` for unbalanced braces. */
  method InlineSpans(code: string, ms: seq<Match>) returns (spans: Option<seq<Span>>)
    requires MatchesOk(code, ms)
    ensures spans.Some? <==> Closed(code, ms)
    ensures spans.Some? ==> multiset(spans.value) == Collected(code, ms, true)
  {
    var found: seq<Span> := [];
    for i := 0 to |ms|
      invariant Gathered(code, ms, i, true, found)
    {
      var more := GatherInline(code, ms, i, found);
      if more == None { return None; }
      found := more.value;
    }
    WholePrefix(ms);
    return Some(found);
  }

  lemma CollectedSnoc(code: string, ms: seq<Match>, i: nat, inline: bool)
    requires i < |ms| && forall k :: 0 <= k <= i ==> ms[k].end <= |code| && EndOf(code, ms[k]).Some?
    ensures Collected(code, ms[..i + 1], inline)
         == Collected(code, ms[..i], inline) + (if ms[i].inline == inline then multiset{SpanOf(code, ms[i])} else multiset{})
  {
    assert ms[..i + 1][..i] == ms[..i];
  }

  /** The spans of the inline, or of the external, modules. */
  function Collected(code: string, ms: seq<Match>, inline: bool): multiset<Span>
    requires forall i :: 0 <= i < |ms| ==> ms[i].end <= |code| && EndOf(code, ms[i]).Some?
  {
    if ms == [] then multiset{} else
    var n := |ms| - 1;
    Collected(code, ms[..n], inline) + (if ms[n].inline == inline then multiset{SpanOf(code, ms[n])} else multiset{})
  }

  lemma {:induction false} CollectedIsAll(code: string, ms: seq<Match>)
    requires forall i :: 0 <= i < |ms| ==> ms[i].end <= |code| && EndOf(code, ms[i]).Some?
    ensures Collected(code, ms, true) + Collected(code, ms, false) == multiset(SpansOf(code, ms))
    decreases |ms|
  {
    if ms == [] {
      assert SpansOf(code, ms) == [];
    } else {
      var n := |ms| - 1;
      CollectedIsAll(code, ms[..n]);
      assert SpansOf(code, ms) == SpansOf(code, ms[..n]) + [SpanOf(code, ms[n])];
    }
  }

  /** The external modules of `count_rust`. */
  method ExternalSpans(code: string, ms: seq<Match>) returns (found: seq<Span>)
    requires MatchesOk(code, ms) && Closed(code, ms)
    ensures multiset(found) == Collected(code, ms, false)
  {
    found := [];
    for i := 0 to |ms|
      invariant multiset(found) == Collected(code, ms[..i], false)
    {
      CollectedSnoc(code, ms, i, false);
      if !ms[i].inline { found := found + [Span(ms[i].start, ms[i].end)]; }
    }
    assert ms[..|ms|] == ms;
  }

  method SortSpans(spans: seq<Span>) returns (r: seq<Span>)
    ensures Sorted(r) && multiset(r) == multiset(spans)
  {
    r := [];
    for i := 0 to |spans|
      invariant Sorted(r) && multiset(r) == multiset(spans[..i])
    {
      assert spans[..i + 1] == spans[..i] + [spans[i]];
      r := Insert(r, spans[i]);
    }
    assert spans[..|spans|] == spans;
  }

  /** The spans of `count_rust`: inline modules, then external ones, then sorted.
      They are the spans of the matches in text order, and there are none if and
      only if some module is unbalanced. */
  method TestSpans(code: string, ms: seq<Match>) returns (spans: Option<seq<Span>>)
    requires MatchesOk(code, ms)
    ensures spans.Some? <==> Closed(code, ms)
    ensures spans.Some? ==> spans.value == SpansOf(code, ms)
  {
    var inline := InlineSpans(code, ms);
    if inline == None { return None; }
    var external := ExternalSpans(code, ms);
    var sorted := SortSpans(inline.value + external);
    CollectedIsAll(code, ms);
    ScannedSpans(code, ms);
    SortedIsUnique(sorted, SpansOf(code, ms));
    return Some(sorted);
  }

  // ----- a nested test module costs product text -----

  lemma {:induction false} PlainIsBalanced(h: string) returns (w: Word)
    requires '{' !in h && '}' !in h
    ensures PlainOnly(w, '{', '}') && Print(w, '{', '}') == h
    decreases |h|
  {
    if h == "" {
      w := Empty;
    } else {
      var rest := PlainIsBalanced(h[1..]);
      w := Plain(h[0], rest);
      assert h[0] in h;
    }
  }

  /** `outer { inner {} }` and the product text after it. */
  function Nested(outer: string, inner: string, product: string): string
  {
    outer + ("{" + (inner + ("{" + ("}" + ("}" + product)))))
  }

  lemma NestedSlices(outer: string, inner: string, product: string)
    ensures var code, a, b := Nested(outer, inner, product), |outer|, |outer| + 1 + |inner|;
            && |code| == b + 3 + |product|
            && code[0..a] == outer && code[a] == '{' && code[a + 1..] == inner + ("{" + ("}" + ("}" + product)))
            && code[a + 1..b] == inner && code[b] == '{' && code[b + 1..] == "}" + ("}" + product)
  {
    var code, a, b := Nested(outer, inner, product), |outer|, |outer| + 1 + |inner|;
    var tail := inner + ("{" + ("}" + ("}" + product)));
    assert code[a..] == "{" + tail;
    SuffixSlices(code, a, a + 1);
    assert tail[..|inner|] == inner && tail[|inner|..] == "{" + ("}" + ("}" + product));
    SuffixSlices(code, a + 1, b);
  }

  lemma TwoClosers(product: string)
    ensures CloseAt("}" + ("}" + product), '{', '}', 1) == Some(0)
    ensures CloseAt("{" + ("}" + ("}" + product)), '{', '}', 1) == Some(2)
  {
    var last, rest := "}" + product, "}" + ("}" + product);
    assert rest[1..] == last;
    assert CloseAt(last, '{', '}', 1) == Some(0);
    CloseStep(rest, '{', '}', 2);
    assert ("{" + rest)[1..] == rest;
    CloseStep("{" + rest, '{', '}', 1);
  }

  lemma NestedMatches(outer: string, inner: string, product: string) returns (ms: seq<Match>)
    requires outer != "" && inner != "" && '{' !in outer && '}' !in outer && '{' !in inner && '}' !in inner
    ensures var code := Nested(outer, inner, product);
            && MatchesOk(code, ms) && Closed(code, ms)
            && SpansOf(code, ms) == [Span(0, |outer| + |inner| + 4), Span(|outer| + 1, |outer| + |inner| + 3)]
  {
    NestedSlices(outer, inner, product);
    TwoClosers(product);
    InnerCloses(inner, product);
    ms := HeadersMatch(Nested(outer, inner, product), outer, inner);
  }

  lemma HeadersMatch(code: string, outer: string, inner: string) returns (ms: seq<Match>)
    requires outer != "" && inner != "" && '{' !in outer && '}' !in outer && '{' !in inner && '}' !in inner
    requires var a, b := |outer|, |outer| + 1 + |inner|;
             && b < |code| && code[0..a] == outer && code[a] == '{' && code[a + 1..b] == inner && code[b] == '{'
             && CloseAt(code[a + 1..], '{', '}', 1) == Some(|inner| + 2) && CloseAt(code[b + 1..], '{', '}', 1) == Some(0)
    ensures MatchesOk(code, ms) && Closed(code, ms)
    ensures SpansOf(code, ms) == [Span(0, |outer| + |inner| + 4), Span(|outer| + 1, |outer| + |inner| + 3)]
  {
    var a, b := |outer|, |outer| + 1 + |inner|;
    var first, second := Match(0, a + 1, true), Match(a + 1, b + 1, true);
    HeaderIsMatch(code, first, outer);
    HeaderIsMatch(code, second, inner);
    ms := [first, second];
    TwoMatches(code, first, second);
  }

  lemma InnerCloses(inner: string, product: string)
    requires '{' !in inner && '}' !in inner
    ensures CloseAt(inner + ("{" + ("}" + ("}" + product))), '{', '}', 1) == Some(|inner| + 2)
  {
    TwoClosers(product);
    var v := PlainIsBalanced(inner);
    ScanSkipsWord(v, '{', '}', "{" + ("}" + ("}" + product)), 1);
  }

  lemma HeaderIsMatch(code: string, m: Match, header: string)
    requires m.inline && m.start < m.end <= |code| && code[m.end - 1] == '{' && code[m.start..m.end - 1] == header
    requires '{' !in header && '}' !in header
    ensures MatchOk(code, m)
  {
    var w := PlainIsBalanced(header);
  }

  lemma TwoMatches(code: string, a: Match, b: Match)
    requires MatchOk(code, a) && MatchOk(code, b) && a.end <= b.start && EndOf(code, a).Some? && EndOf(code, b).Some?
    ensures MatchesOk(code, [a, b]) && Closed(code, [a, b]) && SpansOf(code, [a, b]) == [SpanOf(code, a), SpanOf(code, b)]
  {}

  lemma NestedDeletion(outer: string, inner: string, product: string)
    ensures var n := |outer| + |inner|;
            var spans := [Span(0, n + 4), Span(|outer| + 1, n + 3)];
            var lost := if |product| < |inner| + 2 then |product| else |inner| + 2;
            Without(Nested(outer, inner, product), spans) == product[lost..]
  {
    var code, n := Nested(outer, inner, product), |outer| + |inner|;
    var big, small := Span(0, n + 4), Span(|outer| + 1, n + 3);
    var spans := [big, small];
    assert spans[1..] == [small] && [small][1..] == [];
    assert Without(code, [small]) == Delete(code, small);
    NestedSlices(outer, inner, product);
    assert code[n + 2..] == "}" + ("}" + product);
    assert code[n + 3..] == "}" + product;
    assert code[..|outer| + 1] == outer + "{";
    assert Delete(code, small) == outer + "{" + ("}" + product);
  }

  /** The product text after `mod a{mod b{}}`, both for tests only: its first 19
      characters, or all of it, are deleted with the modules. */
  lemma NestedModuleLosesCode(product: string) returns (ms: seq<Match>)
    ensures var code := Nested("#[cfg(test)]mod a", "#[cfg(test)]mod b", product);
            && MatchesOk(code, ms) && Closed(code, ms)
            && Without(code, SpansOf(code, ms)) == product[if |product| < 19 then |product| else 19..]
            && (product != "" ==> Without(code, SpansOf(code, ms)) != Kept(code, SpansOf(code, ms)))
  {
    var outer, inner := "#[cfg(test)]mod a", "#[cfg(test)]mod b";
    ms := NestedMatches(outer, inner, product);
    NestedDeletion(outer, inner, product);
    var code := Nested(outer, inner, product);
    DeletionOfTestModules(code, code, ms);
    if product != "" { ProductIsUncovered(SpansOf(code, ms), |outer| + |inner| + 4); }
  }

  lemma ProductIsUncovered(spans: seq<Span>, p: nat)
    requires |spans| == 2 && Inside(spans[1], spans[0]) && spans[0].end == p
    ensures forall n: nat :: n > p ==> !NothingAfterNested(n, spans)
  {
    assert !Covered(spans, p);
  }
}
