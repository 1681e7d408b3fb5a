/** `without_spans` of scripts/code_size.py, which deletes spans from right to
    left, and exactly when that leaves the characters outside every span. */
module Spans {

  datatype Span = Span(start: nat, end: nat)

  /** `source[:start] + source[end:]`, with Python's clamping. */
  function Delete<T>(source: seq<T>, span: Span): seq<T>
  {
    var a := if span.start < |source| then span.start else |source|;
    var b := if span.end < |source| then span.end else |source|;
    source[..a] + source[b..]
  }

  function Without<T>(source: seq<T>, spans: seq<Span>): seq<T>
  {
    if spans == [] then source else Delete(Without(source, spans[1..]), spans[0])
  }

  /** The loop of `without_spans`: `for start, end in reversed(spans)`. */
  method WithoutSpans<T>(source: seq<T>, spans: seq<Span>) returns (r: seq<T>)
    ensures r == Without(source, spans)
  {
    r := source;
    var k := |spans|;
    assert spans[k..] == [];
    while k > 0
      invariant k <= |spans| && r == Without(source, spans[k..])
    {
      k := k - 1;
      assert spans[k..][1..] == spans[k + 1..];
      r := Delete(r, spans[k]);
    }
  }

  /** Spans as the scanner produces them: non-empty, inside the text, sorted by start. */
  predicate SpansOk(n: nat, spans: seq<Span>)
  {
    && (forall i :: 0 <= i < |spans| ==> spans[i].start < spans[i].end <= n)
    && (forall i, j :: 0 <= i < j < |spans| ==> spans[i].start < spans[j].start)
  }

  predicate Covered(spans: seq<Span>, p: nat)
  {
    exists i :: 0 <= i < |spans| && spans[i].start <= p < spans[i].end
  }

  /** The positions outside every span, in order. */
  function KeptPositions(n: nat, spans: seq<Span>): seq<nat>
  {
    if n == 0 then []
    else KeptPositions(n - 1, spans) + (if Covered(spans, n - 1) then [] else [n - 1])
  }

  function Pick<T>(source: seq<T>, positions: seq<nat>): (r: seq<T>)
    requires forall i :: 0 <= i < |positions| ==> positions[i] < |source|
    ensures |r| == |positions|
  {
    seq(|positions|, i requires 0 <= i < |positions| => source[positions[i]])
  }

  function Positions(n: nat): (r: seq<nat>)
    ensures |r| == n && forall i :: 0 <= i < n ==> r[i] == i
  {
    seq(n, i => i)
  }

  predicate Ascending(ps: seq<nat>)
  {
    forall i, j :: 0 <= i < j < |ps| ==> ps[i] < ps[j]
  }

  // ----- what survives, as positions -----

  function Surviving(n: nat, spans: seq<Span>): seq<nat>
  {
    Without<nat>(Positions(n), spans)
  }

  lemma DeleteAt(xs: seq<nat>, span: Span, k: nat)
    requires span.start < span.end && span.start <= |xs| && k < |Delete(xs, span)|
    ensures k < span.start ==> Delete(xs, span)[k] == xs[k]
    ensures k >= span.start ==> k - span.start + span.end < |xs| && Delete(xs, span)[k] == xs[k - span.start + span.end]
  {}

  /** Where the first span starts, or the end of the text. */
  function First(n: nat, spans: seq<Span>): nat
  {
    if spans == [] then n else spans[0].start
  }

  /** Survivors are ascending and outside every span, and nothing before the first span is touched. */
  ghost predicate SurvivorsOk(n: nat, spans: seq<Span>, ps: seq<nat>)
  {
    && Ascending(ps)
    && (forall k :: 0 <= k < |ps| ==> k <= ps[k] < n && !Covered(spans, ps[k]))
    && First(n, spans) <= |ps|
    && (forall k :: 0 <= k < First(n, spans) ==> ps[k] == k)
  }

  lemma {:induction false} Survivors(n: nat, spans: seq<Span>)
    requires SpansOk(n, spans)
    ensures SurvivorsOk(n, spans, Surviving(n, spans))
    decreases |spans|
  {
    if spans == [] {
      forall k | 0 <= k < n ensures !Covered(spans, k) {}
    } else {
      var h, rest := spans[0], spans[1..];
      Survivors(n, rest);
      assert rest != [] ==> rest[0] == spans[1];
      DeleteSurvivors(n, spans, Surviving(n, rest));
    }
  }

  lemma DeleteSurvivors(n: nat, spans: seq<Span>, before: seq<nat>)
    requires SpansOk(n, spans) && spans != [] && SurvivorsOk(n, spans[1..], before)
    requires spans[0].start < First(n, spans[1..])
    ensures SurvivorsOk(n, spans, Delete(before, spans[0]))
  {
    var h, ps := spans[0], Delete(before, spans[0]);
    forall k | 0 <= k < |ps| ensures k <= ps[k] < n && !Covered(spans, ps[k]) {
      DeleteAt(before, h, k);
      StaysUncovered(spans, ps[k]);
    }
    forall i, j | 0 <= i < j < |ps| ensures ps[i] < ps[j] {
      DeleteAt(before, h, i);
      DeleteAt(before, h, j);
    }
    forall k | 0 <= k < h.start ensures ps[k] == k { DeleteAt(before, h, k); }
  }

  lemma StaysUncovered(spans: seq<Span>, p: nat)
    requires spans != []
    ensures Covered(spans, p) <==> spans[0].start <= p < spans[0].end || Covered(spans[1..], p)
  {
    if Covered(spans, p) {
      var i :| 0 <= i < |spans| && spans[i].start <= p < spans[i].end;
      if i > 0 { assert spans[1..][i - 1] == spans[i]; }
    }
    if Covered(spans[1..], p) {
      var i :| 0 <= i < |spans[1..]| && spans[1..][i].start <= p < spans[1..][i].end;
      assert spans[i + 1] == spans[1..][i];
    }
  }

  // ----- enough: no overlap to the left of a kept character -----

  /** No span that overlaps a later one ends at or before `p`. */
  predicate CleanUpTo(spans: seq<Span>, p: nat)
  {
    forall i, j :: 0 <= i < j < |spans| && spans[j].start < spans[i].end ==> p < spans[i].end
  }

  lemma CleanTail(spans: seq<Span>, p: nat)
    requires spans != [] && CleanUpTo(spans, p)
    ensures CleanUpTo(spans[1..], p)
  {
    var rest := spans[1..];
    forall i, j | 0 <= i < j < |rest| && rest[j].start < rest[i].end ensures p < rest[i].end {
      assert rest[i] == spans[i + 1] && rest[j] == spans[j + 1];
    }
  }

  lemma {:induction false} UncoveredSurvives(n: nat, spans: seq<Span>, p: nat)
    requires SpansOk(n, spans) && p < n && !Covered(spans, p) && CleanUpTo(spans, p)
    ensures p in Surviving(n, spans)
    decreases |spans|
  {
    if spans == [] {
      assert Positions(n)[p] == p;
    } else {
      var h, rest := spans[0], spans[1..];
      var before, ps := Surviving(n, rest), Surviving(n, spans);
      StaysUncovered(spans, p);
      CleanTail(spans, p);
      UncoveredSurvives(n, rest, p);
      Survivors(n, rest);
      Survivors(n, spans);
      assert rest != [] ==> rest[0] == spans[1];
      if p < h.start {
        assert ps[p] == p;
      } else {
        var k :| 0 <= k < |before| && before[k] == p;
        assert h.end <= First(n, rest);
        assert k >= h.end;
        DeleteAt(before, h, k - h.end + h.start);
      }
    }
  }

  // ----- needed: every overlap before a kept character loses one -----

  function Length(s: Span): nat
  {
    if s.start <= s.end then s.end - s.start else 0
  }

  /** Characters the spans that start before `p` ask to delete. */
  function Asked(spans: seq<Span>, p: nat): nat
  {
    if spans == [] then 0 else (if spans[0].start < p then Length(spans[0]) else 0) + Asked(spans[1..], p)
  }

  /** A survivor has moved left by everything asked for before it. */
  lemma {:induction false} SurvivorMoved(n: nat, spans: seq<Span>, k: nat)
    requires SpansOk(n, spans) && k < |Surviving(n, spans)|
    ensures k + Asked(spans, Surviving(n, spans)[k]) == Surviving(n, spans)[k]
    decreases |spans|
  {
    if spans != [] {
      var h, rest := spans[0], spans[1..];
      var before, ps := Surviving(n, rest), Surviving(n, spans);
      Survivors(n, rest);
      Survivors(n, spans);
      assert rest != [] ==> rest[0] == spans[1];
      DeleteAt(before, h, k);
      SurvivorMoved(n, rest, if k < h.start then k else k - h.start + h.end);
    }
  }

  /** Positions below `p` that the spans cover. */
  function CoveredBelow(spans: seq<Span>, p: nat): set<nat>
  {
    set q: nat | 0 <= q < p && Covered(spans, q)
  }

  function Interval(a: nat, b: nat): (r: set<nat>)
    ensures forall q: nat :: q in r <==> a <= q < b
    ensures |r| == if a <= b then b - a else 0
  {
    if a >= b then {} else Interval(a, b - 1) + {b - 1}
  }

  /** An overlap between spans that start before `p`. */
  predicate OverlapBefore(spans: seq<Span>, p: nat)
  {
    exists i, j :: 0 <= i < j < |spans| && spans[j].start < spans[i].end && spans[j].start < p
  }

  /** The spans before an uncovered position ask for at least what they cover,
      and for more when two of them overlap. */
  lemma {:induction false} AskedIsMore(n: nat, spans: seq<Span>, p: nat)
    requires SpansOk(n, spans) && p < n && !Covered(spans, p)
    ensures |CoveredBelow(spans, p)| <= Asked(spans, p)
    ensures OverlapBefore(spans, p) ==> |CoveredBelow(spans, p)| < Asked(spans, p)
    decreases |spans|
  {
    if spans == [] {
      assert CoveredBelow(spans, p) == {};
    } else {
      StaysUncovered(spans, p);
      AskedIsMore(n, spans[1..], p);
      var own, tail := OwnBelow(spans[0], p), CoveredBelow(spans[1..], p);
      CoveredSplits(n, spans, p);
      UnionSize(own, tail);
      if OverlapBefore(spans, p) { OverlapCounts(n, spans, p); }
    }
  }

  function OwnBelow(s: Span, p: nat): set<nat>
  {
    if s.start < p then Interval(s.start, s.end) else {}
  }

  lemma CoveredSplits(n: nat, spans: seq<Span>, p: nat)
    requires SpansOk(n, spans) && spans != [] && !Covered(spans, p)
    ensures CoveredBelow(spans, p) == OwnBelow(spans[0], p) + CoveredBelow(spans[1..], p)
  {
    StaysUncovered(spans, p);
    forall q: nat
      ensures q in CoveredBelow(spans, p) <==> q in OwnBelow(spans[0], p) || q in CoveredBelow(spans[1..], p)
    {
      StaysUncovered(spans, q);
    }
  }

  lemma UnionSize(a: set<nat>, b: set<nat>)
    ensures |a + b| + |a * b| == |a| + |b|
  {}

  /** An overlap is either with the first span, and then a position counts twice, or among the rest. */
  lemma OverlapCounts(n: nat, spans: seq<Span>, p: nat)
    requires SpansOk(n, spans) && spans != [] && p < n && !Covered(spans, p) && OverlapBefore(spans, p)
    ensures |OwnBelow(spans[0], p) * CoveredBelow(spans[1..], p)| > 0 || OverlapBefore(spans[1..], p)
  {
    var own, tail := OwnBelow(spans[0], p), CoveredBelow(spans[1..], p);
    var i, j :| 0 <= i < j < |spans| && spans[j].start < spans[i].end && spans[j].start < p;
    var rest := spans[1..];
    assert rest[j - 1] == spans[j];
    if i == 0 {
      var q := spans[j].start;
      assert Covered(rest, q);
      assert q in own * tail;
    } else {
      assert rest[i - 1] == spans[i];
      assert OverlapBefore(rest, p);
    }
  }

  /** The positions below `p` outside every span. */
  function UncoveredBelow(spans: seq<Span>, p: nat): set<nat>
  {
    set q: nat | 0 <= q < p && !Covered(spans, q)
  }

  lemma UncoveredCount(spans: seq<Span>, p: nat)
    ensures |UncoveredBelow(spans, p)| + |CoveredBelow(spans, p)| == p
  {
    assert Interval(0, p) == UncoveredBelow(spans, p) + CoveredBelow(spans, p);
    UnionSize(UncoveredBelow(spans, p), CoveredBelow(spans, p));
    assert UncoveredBelow(spans, p) * CoveredBelow(spans, p) == {};
  }

  lemma {:induction false} MembersFit(ps: seq<nat>, s: set<nat>)
    requires forall q :: q in s ==> q in ps
    ensures |s| <= |ps|
    decreases |ps|
  {
    if ps == [] {
      assert s == {};
    } else {
      var rest := s - {ps[0]};
      forall q | q in rest ensures q in ps[1..] { assert q in ps; }
      MembersFit(ps[1..], rest);
      assert |s| <= |rest| + 1 by { if ps[0] in s { assert s == rest + {ps[0]}; } else { assert s == rest; } }
    }
  }

  /** If everything uncovered survives, no overlap lies before a kept character. */
  lemma AllSurviveOnlyIfClean(n: nat, spans: seq<Span>, p: nat)
    requires SpansOk(n, spans) && p < n && !Covered(spans, p)
    requires forall q: nat :: q <= p && !Covered(spans, q) ==> q in Surviving(n, spans)
    ensures !OverlapBefore(spans, p)
  {
    var ps := Surviving(n, spans);
    var k :| 0 <= k < |ps| && ps[k] == p;
    Survivors(n, spans);
    SurvivorMoved(n, spans, k);
    AskedIsMore(n, spans, p);
    UncoveredCount(spans, p);
    forall q | q in UncoveredBelow(spans, p) ensures q in ps[..k] {
      var i :| 0 <= i < |ps| && ps[i] == q;
      assert i < k;
      assert ps[..k][i] == q;
    }
    MembersFit(ps[..k], UncoveredBelow(spans, p));
  }

  /** No overlap before `p` is the same as a clean text up to an uncovered `p`. */
  lemma CleanIsNoOverlap(n: nat, spans: seq<Span>, p: nat)
    requires SpansOk(n, spans) && p < n && !Covered(spans, p)
    ensures CleanUpTo(spans, p) <==> !OverlapBefore(spans, p)
  {
    if OverlapBefore(spans, p) {
      var i, j :| 0 <= i < j < |spans| && spans[j].start < spans[i].end && spans[j].start < p;
      assert spans[i].start < p;
    }
    if !CleanUpTo(spans, p) {
      var i, j :| 0 <= i < j < |spans| && spans[j].start < spans[i].end && !(p < spans[i].end);
      assert spans[j].start < p;
    }
  }

  // ----- the exact condition -----

  /** Wherever a character is kept, no two spans before it overlap. */
  predicate HarmlessOverlaps(n: nat, spans: seq<Span>)
  {
    forall p :: 0 <= p < n && !Covered(spans, p) ==> CleanUpTo(spans, p)
  }

  function Kept<T>(source: seq<T>, spans: seq<Span>): seq<T>
  {
    KeptInside(|source|, spans);
    Pick(source, KeptPositions(|source|, spans))
  }

  lemma {:induction false} KeptInside(n: nat, spans: seq<Span>)
    ensures var ks := KeptPositions(n, spans);
            && Ascending(ks) && (forall i :: 0 <= i < |ks| ==> ks[i] < n)
            && (forall q: nat :: q in ks <==> q < n && !Covered(spans, q))
    decreases n
  {
    if n > 0 { KeptInside(n - 1, spans); }
  }

  lemma DeletePick<T>(source: seq<T>, ps: seq<nat>, span: Span)
    requires forall i :: 0 <= i < |ps| ==> ps[i] < |source|
    requires forall i :: 0 <= i < |Delete(ps, span)| ==> Delete(ps, span)[i] < |source|
    ensures Delete(Pick(source, ps), span) == Pick(source, Delete(ps, span))
  {}

  /** Deleting from a text is deleting from its positions. */
  lemma {:induction false} WithoutIsPicked<T>(source: seq<T>, spans: seq<Span>)
    requires SpansOk(|source|, spans)
    ensures forall i :: 0 <= i < |Surviving(|source|, spans)| ==> Surviving(|source|, spans)[i] < |source|
    ensures Without(source, spans) == Pick(source, Surviving(|source|, spans))
    decreases |spans|
  {
    Survivors(|source|, spans);
    if spans == [] {
      assert Pick(source, Positions(|source|)) == source;
    } else {
      WithoutIsPicked(source, spans[1..]);
      DeletePick(source, Surviving(|source|, spans[1..]), spans[0]);
    }
  }

  function Elements(ps: seq<nat>): (r: set<nat>)
    ensures forall q :: q in r <==> q in ps
  {
    if ps == [] then {} else {ps[0]} + Elements(ps[1..])
  }

  lemma {:induction false} AscendingSize(ps: seq<nat>)
    requires Ascending(ps)
    ensures |Elements(ps)| == |ps|
    decreases |ps|
  {
    if ps != [] {
      AscendingSize(ps[1..]);
      assert ps[0] !in ps[1..];
    }
  }

  lemma HeadIsLeast(ps: seq<nat>)
    requires Ascending(ps) && ps != []
    ensures ps[0] in Elements(ps) && (forall q :: q in Elements(ps) ==> ps[0] <= q)
    ensures Elements(ps[1..]) == Elements(ps) - {ps[0]}
  {
    assert ps[0] !in ps[1..];
  }

  lemma SameHead(a: seq<nat>, b: seq<nat>)
    requires Ascending(a) && Ascending(b) && a != [] && b != [] && Elements(a) == Elements(b)
    ensures a[0] == b[0] && Ascending(a[1..]) && Ascending(b[1..]) && Elements(a[1..]) == Elements(b[1..])
  {
    HeadIsLeast(a);
    HeadIsLeast(b);
  }

  /** Two ascending lists with the same elements are the same list. */
  lemma {:induction false} AscendingIsUnique(a: seq<nat>, b: seq<nat>)
    requires Ascending(a) && Ascending(b) && Elements(a) == Elements(b)
    ensures a == b
    decreases |a|
  {
    if a == [] || b == [] {
      AscendingSize(a);
      AscendingSize(b);
    } else {
      SameHead(a, b);
      AscendingIsUnique(a[1..], b[1..]);
      Rejoin(a, b);
    }
  }

  lemma Rejoin(a: seq<nat>, b: seq<nat>)
    requires a != [] && b != [] && a[0] == b[0] && a[1..] == b[1..]
    ensures a == b
  {
    assert a == [a[0]] + a[1..] && b == [b[0]] + b[1..];
  }

  lemma CleanSurvivorsAreKept(n: nat, spans: seq<Span>)
    requires SpansOk(n, spans) && HarmlessOverlaps(n, spans)
    ensures Surviving(n, spans) == KeptPositions(n, spans)
  {
    var ps, ks := Surviving(n, spans), KeptPositions(n, spans);
    Survivors(n, spans);
    KeptInside(n, spans);
    forall q: nat ensures q in ps <==> q in ks {
      if q < n && !Covered(spans, q) { UncoveredSurvives(n, spans, q); }
    }
    assert Elements(ps) == Elements(ks);
    AscendingIsUnique(ps, ks);
  }

  lemma HarmfulLosesCharacters(n: nat, spans: seq<Span>)
    requires SpansOk(n, spans) && !HarmlessOverlaps(n, spans)
    ensures |Surviving(n, spans)| < |KeptPositions(n, spans)|
  {
    var ps, ks := Surviving(n, spans), KeptPositions(n, spans);
    Survivors(n, spans);
    KeptInside(n, spans);
    LostOne(n, spans);
    AscendingSize(ps);
    AscendingSize(ks);
    forall q | q in Elements(ps) ensures q in Elements(ks) {}
    SmallerSet(Elements(ps), Elements(ks));
  }

  /** Right-to-left deletion leaves exactly the characters outside every span if
      and only if no two overlapping spans lie before a kept character;
      otherwise it deletes characters of the product. */
  lemma DeletionIsExactlyRight<T>(source: seq<T>, spans: seq<Span>)
    requires SpansOk(|source|, spans)
    ensures Without(source, spans) == Kept(source, spans) <==> HarmlessOverlaps(|source|, spans)
    ensures !HarmlessOverlaps(|source|, spans) ==> |Without(source, spans)| < |Kept(source, spans)|
  {
    WithoutIsPicked(source, spans);
    if HarmlessOverlaps(|source|, spans) {
      CleanSurvivorsAreKept(|source|, spans);
    } else {
      HarmfulLosesCharacters(|source|, spans);
    }
  }

  lemma SmallerSet(a: set<nat>, b: set<nat>)
    requires a < b
    ensures |a| < |b|
  {
    assert b == a + (b - a);
    assert |b| == |a| + |b - a|;
  }

  lemma LostOne(n: nat, spans: seq<Span>)
    requires SpansOk(n, spans) && !HarmlessOverlaps(n, spans)
    ensures exists q: nat :: q < n && !Covered(spans, q) && q !in Surviving(n, spans)
  {
    var p: nat :| p < n && !Covered(spans, p) && !CleanUpTo(spans, p);
    CleanIsNoOverlap(n, spans, p);
    if forall q: nat :: q <= p && !Covered(spans, q) ==> q in Surviving(n, spans) {
      AllSurviveOnlyIfClean(n, spans, p);
    }
  }

  predicate Disjoint(spans: seq<Span>)
  {
    forall i, j :: 0 <= i < j < |spans| ==> spans[i].end <= spans[j].start
  }

  function TotalLength(spans: seq<Span>): nat
  {
    if spans == [] then 0 else Length(spans[0]) + TotalLength(spans[1..])
  }

  /** Disjoint spans: the kept characters remain, and the lengths add up. */
  lemma {:induction false} DisjointDeletion<T>(source: seq<T>, spans: seq<Span>)
    requires SpansOk(|source|, spans) && Disjoint(spans)
    ensures Without(source, spans) == Kept(source, spans)
    ensures |Without(source, spans)| + TotalLength(spans) == |source|
    decreases |spans|
  {
    assert HarmlessOverlaps(|source|, spans);
    DeletionIsExactlyRight(source, spans);
    if spans != [] {
      var rest := spans[1..];
      assert forall i, j :: 0 <= i < j < |rest| ==> rest[i] == spans[i + 1] && rest[j] == spans[j + 1];
      DisjointDeletion(source, rest);
      WithoutIsPicked(source, rest);
      Survivors(|source|, rest);
      assert rest != [] ==> rest[0] == spans[1];
    }
  }
}
