/** The aggregation of scripts/phase0_report.py, and the report of a harness run. */
module Aggregation {
  import opened Text
  import opened SortedText
  import opened Percentile
  import opened Recorder

  // ----- grouping -----

  function OfCase(records: seq<Record>, id: string): seq<Record>
  {
    if records == [] then []
    else (if records[0].caseId == id then [records[0]] else []) + OfCase(records[1..], id)
  }

  function Passed(records: seq<Record>): nat
  {
    if records == [] then 0 else (if records[0].passed then 1 else 0) + Passed(records[1..])
  }

  lemma PassedFits(records: seq<Record>)
    ensures Passed(records) <= |records|
  {}

  lemma {:induction false} OfCaseSnoc(records: seq<Record>, r: Record, id: string)
    ensures OfCase(records + [r], id) == OfCase(records, id) + (if r.caseId == id then [r] else [])
    decreases |records|
  {
    if records == [] {
      assert records + [r] == [r] && [r][1..] == [];
    } else {
      assert (records + [r])[1..] == records[1..] + [r] && (records + [r])[0] == records[0];
      OfCaseSnoc(records[1..], r, id);
      var head := if records[0].caseId == id then [records[0]] else [];
      var last := if r.caseId == id then [r] else [];
      Assoc(head, OfCase(records[1..], id), last);
    }
  }

  /** Samples, and passed samples, over a list of case names. */
  function SumSamples(records: seq<Record>, ids: seq<string>): nat
  {
    if ids == [] then 0 else
    var n := |ids| - 1;
    SumSamples(records, ids[..n]) + |OfCase(records, ids[n])|
  }

  function SumPassed(records: seq<Record>, ids: seq<string>): nat
  {
    if ids == [] then 0 else
    var n := |ids| - 1;
    SumPassed(records, ids[..n]) + Passed(OfCase(records, ids[n]))
  }

  lemma {:induction false} NothingToCount(ids: seq<string>)
    ensures SumSamples([], ids) == 0 && SumPassed([], ids) == 0
    decreases |ids|
  {
    if ids != [] { NothingToCount(ids[..|ids| - 1]); }
  }

  predicate NoRepetition(ids: seq<string>)
  {
    forall i, j :: 0 <= i < j < |ids| ==> ids[i] != ids[j]
  }

  lemma OfCaseCons(records: seq<Record>, id: string)
    requires records != []
    ensures var r, own, rest := records[0], OfCase(records, id), OfCase(records[1..], id);
            && |own| == |rest| + (if r.caseId == id then 1 else 0)
            && Passed(own) == Passed(rest) + (if r.caseId == id && r.passed then 1 else 0)
  {
    var rest := OfCase(records[1..], id);
    assert [] + rest == rest;
    assert ([records[0]] + rest)[1..] == rest;
  }

  lemma LastIsNew(ids: seq<string>, id: string)
    requires ids != [] && NoRepetition(ids)
    ensures var n := |ids| - 1;
            (id in ids <==> id in ids[..n] || id == ids[n]) && ids[n] !in ids[..n] && NoRepetition(ids[..n])
  {
    var n := |ids| - 1;
    assert ids == ids[..n] + [ids[n]];
  }

  /** One more record changes the sums by one, through the one case it belongs to. */
  lemma {:induction false} SumsCons(records: seq<Record>, ids: seq<string>)
    requires records != [] && NoRepetition(ids)
    ensures var hit := records[0].caseId in ids;
            && SumSamples(records, ids) == SumSamples(records[1..], ids) + (if hit then 1 else 0)
            && SumPassed(records, ids) == SumPassed(records[1..], ids) + (if hit && records[0].passed then 1 else 0)
    decreases |ids|
  {
    if ids != [] {
      var n := |ids| - 1;
      OfCaseCons(records, ids[n]);
      SumsCons(records, ids[..n]);
      LastIsNew(ids, records[0].caseId);
    }
  }

  /** Grouping loses and invents nothing: over any names without repetition that
      cover the records, the case counts add up to those of the records. */
  lemma {:induction false} GroupingPartitions(records: seq<Record>, ids: seq<string>)
    requires NoRepetition(ids) && forall i :: 0 <= i < |records| ==> records[i].caseId in ids
    ensures SumSamples(records, ids) == |records| && SumPassed(records, ids) == Passed(records)
    decreases |records|
  {
    if records == [] {
      NothingToCount(ids);
    } else {
      GroupingPartitions(records[1..], ids);
      SumsCons(records, ids);
    }
  }

  /** The records of `grouped` are those of `records`, case by case. */
  ghost predicate Groups(records: seq<Record>, grouped: map<string, seq<Record>>)
  {
    && (forall i :: 0 <= i < |records| ==> records[i].caseId in grouped)
    && (forall id :: id in grouped ==> grouped[id] == OfCase(records, id) && grouped[id] != [])
  }

  lemma {:induction false} AbsentCase(records: seq<Record>, id: string)
    requires forall i :: 0 <= i < |records| ==> records[i].caseId != id
    ensures OfCase(records, id) == []
    decreases |records|
  {
    if records != [] { AbsentCase(records[1..], id); }
  }

  /** The grouping loop of `aggregate`. */
  method GroupByCase(records: seq<Record>) returns (grouped: map<string, seq<Record>>)
    ensures Groups(records, grouped)
  {
    grouped := map[];
    for k := 0 to |records|
      invariant Groups(records[..k], grouped)
    {
      var r := records[k];
      var seen := records[..k];
      assert records[..k + 1] == seen + [r];
      if r.caseId !in grouped { AbsentCase(seen, r.caseId); }
      var own := if r.caseId in grouped then grouped[r.caseId] else [];
      forall id ensures OfCase(seen + [r], id) == OfCase(seen, id) + (if r.caseId == id then [r] else []) {
        OfCaseSnoc(seen, r, id);
      }
      grouped := grouped[r.caseId := own + [r]];
    }
    assert records[..|records|] == records;
  }

  // ----- the figures of one case -----

  /** The passed records, in order. */
  function Succeeded(own: seq<Record>): (r: seq<Record>)
    ensures |r| == Passed(own)
  {
    if own == [] then [] else (if own[0].passed then [own[0]] else []) + Succeeded(own[1..])
  }

  lemma {:induction false} SucceededMembers(own: seq<Record>, x: Record)
    ensures x in Succeeded(own) <==> x in own && x.passed
    decreases |own|
  {
    if own != [] { SucceededMembers(own[1..], x); }
  }

  /** The wall-clock figures that are there. */
  function Walls(passed: seq<Record>): seq<int>
  {
    if passed == [] then []
    else (match passed[0].metrics.wall case None => [] case Some(w) => [w]) + Walls(passed[1..])
  }

  /** The growth in memory if both figures are there. */
  function Growth(m: Metrics): seq<int>
  {
    match m
    case Metrics(_, Some(before), Some(after)) => [after - before]
    case _ => []
  }

  function Deltas(passed: seq<Record>): seq<int>
  {
    if passed == [] then [] else Growth(passed[0].metrics) + Deltas(passed[1..])
  }

  function Reals(values: seq<int>): (r: seq<real>)
    ensures |r| == |values| && forall i :: 0 <= i < |values| ==> r[i] == values[i] as real
  {
    seq(|values|, i requires 0 <= i < |values| => values[i] as real)
  }

  datatype Wall = Wall(min: int, median: int, p95: int, max: int)
  datatype Memory = Memory(min: int, median: int, max: int)

  predicate IsLeast(values: seq<int>, v: int)
  {
    v in values && forall w :: w in values ==> v <= w
  }

  predicate IsGreatest(values: seq<int>, v: int)
  {
    v in values && forall w :: w in values ==> w <= v
  }

  predicate IsMedian(values: seq<int>, v: int)
  {
    values != [] && v == Trunc(Median(Reals(values)))
  }

  /** The wall-clock figures of a case: none without a sample, else least,
      truncated median, nearest-rank p95 and greatest. */
  predicate WallIs(values: seq<int>, wall: Option<Wall>)
  {
    match wall
    case None => values == []
    case Some(w) =>
      && IsLeast(values, w.min) && IsMedian(values, w.median) && IsGreatest(values, w.max)
      && IsNearestRank(Reals(values), CeilDiv(95 * |values|, 100), w.p95 as real)
  }

  predicate MemoryIs(values: seq<int>, memory: Option<Memory>)
  {
    match memory
    case None => values == []
    case Some(m) => IsLeast(values, m.min) && IsMedian(values, m.median) && IsGreatest(values, m.max)
  }

  method LeastOf(values: seq<int>) returns (v: int)
    requires values != []
    ensures IsLeast(values, v)
  {
    v := values[0];
    for i := 0 to |values|
      invariant v in values && forall k :: 0 <= k < i ==> v <= values[k]
    {
      if values[i] < v { v := values[i]; }
    }
  }

  method GreatestOf(values: seq<int>) returns (v: int)
    requires values != []
    ensures IsGreatest(values, v)
  {
    v := values[0];
    for i := 0 to |values|
      invariant v in values && forall k :: 0 <= k < i ==> values[k] <= v
    {
      if v < values[i] { v := values[i]; }
    }
  }

  method WallOf(values: seq<int>) returns (wall: Option<Wall>)
    ensures WallIs(values, wall)
  {
    if values == [] { return None; }
    var least := LeastOf(values);
    var greatest := GreatestOf(values);
    var reals := Reals(values);
    ImplementationsCoincide(reals, 95, 100);
    var p := NearestRank(reals, 95, 100).value;
    NearestRankIsRight(reals, 95, 100, p);
    WholeNumber(values, p);
    return Some(Wall(least, Trunc(Median(reals)), p.Floor, greatest));
  }

  method MemoryOf(values: seq<int>) returns (memory: Option<Memory>)
    ensures MemoryIs(values, memory)
  {
    if values == [] { return None; }
    var least := LeastOf(values);
    var greatest := GreatestOf(values);
    return Some(Memory(least, Trunc(Median(Reals(values))), greatest));
  }

  lemma WholeNumber(values: seq<int>, p: real)
    requires p in Reals(values)
    ensures p == p.Floor as real && p.Floor in values
  {
    var i :| 0 <= i < |values| && Reals(values)[i] == p;
    assert p.Floor == values[i];
  }

  lemma RealsBetween(values: seq<int>, lo: int, hi: int)
    requires IsLeast(values, lo) && IsGreatest(values, hi)
    ensures var r := Reals(values);
            && lo as real in r && hi as real in r
            && forall v :: v in r ==> lo as real <= v <= hi as real && v == v.Floor as real
  {
    var r := Reals(values);
    var i :| 0 <= i < |values| && values[i] == lo;
    var j :| 0 <= j < |values| && values[j] == hi;
    assert r[i] == lo as real && r[j] == hi as real;
    forall v | v in r ensures lo as real <= v <= hi as real && v == v.Floor as real { WholeNumber(values, v); }
  }

  /** The reported figures of a case are in order: min, median, p95, max. */
  lemma FiguresAreOrdered(values: seq<int>, w: Wall)
    requires WallIs(values, Some(w))
    ensures w.min <= w.median <= w.p95 <= w.max
  {
    RealsBetween(values, w.min, w.max);
    TruncatedMedian(Reals(values), w.min, w.max);
    NearestRankIsRight(Reals(values), 95, 100, w.p95 as real);
    assert w.p95 as real in Reals(values);
  }

  // ----- the report -----

  datatype Summarized = Summarized(
    caseId: string, samples: nat, passed: nat, failed: nat,
    stable: bool, digests: seq<string>, wall: Option<Wall>, memory: Option<Memory>)

  datatype Report = Report(cases: seq<Summarized>, samples: nat, passed: nat, failed: nat, unstable: nat)

  /** The entry of a case reports its own records and nothing else. `digest` is
      the hash of a summary. */
  ghost predicate Summarizes(entry: Summarized, own: seq<Record>, id: string, digest: string -> string)
  {
    && entry.caseId == id
    && entry.samples == |own| && entry.passed == Passed(own) && entry.passed + entry.failed == entry.samples
    && Ascending(entry.digests)
    && (forall x :: x in entry.digests <==> exists r :: r in own && r.passed && digest(r.content) == x)
    && (entry.stable <==> |entry.digests| <= 1)
    && WallIs(Walls(Succeeded(own)), entry.wall)
    && MemoryIs(Deltas(Succeeded(own)), entry.memory)
  }

  /** A case is called stable exactly when its passed samples all have one digest. */
  lemma StableExactly(entry: Summarized, own: seq<Record>, id: string, digest: string -> string)
    requires Summarizes(entry, own, id, digest)
    ensures entry.stable <==> forall r, s :: r in own && r.passed && s in own && s.passed ==> digest(r.content) == digest(s.content)
  {
    var ds := entry.digests;
    if entry.stable {
      forall r, s | r in own && r.passed && s in own && s.passed ensures digest(r.content) == digest(s.content) {
        assert digest(r.content) in ds && digest(s.content) in ds;
      }
    } else {
      assert ds[0] in ds && ds[1] in ds && ds[0] != ds[1];
      var r :| r in own && r.passed && digest(r.content) == ds[0];
      var s :| s in own && s.passed && digest(s.content) == ds[1];
    }
  }

  method SummarizeCase(own: seq<Record>, id: string, digest: string -> string) returns (entry: Summarized)
    ensures Summarizes(entry, own, id, digest)
  {
    var passed := Succeeded(own);
    PassedFits(own);
    forall x ensures x in passed <==> x in own && x.passed { SucceededMembers(own, x); }
    var digests := SortedText.Sorted(set r | r in passed :: digest(r.content));
    forall x ensures x in digests <==> exists r :: r in own && r.passed && digest(r.content) == x {
      assert x in digests <==> exists r :: r in passed && digest(r.content) == x;
    }
    var wall := WallOf(Walls(passed));
    var memory := MemoryOf(Deltas(passed));
    entry := Summarized(id, |own|, |passed|, |own| - |passed|, |digests| <= 1, digests, wall, memory);
  }

  /** Every case that has a record, once, in name order. */
  ghost predicate CaseNames(records: seq<Record>, ids: seq<string>)
  {
    && Ascending(ids)
    && (forall i :: 0 <= i < |records| ==> records[i].caseId in ids)
    && (forall id :: id in ids ==> OfCase(records, id) != [])
  }

  lemma SumsSnoc(records: seq<Record>, ids: seq<string>, k: nat)
    requires k < |ids|
    ensures SumSamples(records, ids[..k + 1]) == SumSamples(records, ids[..k]) + |OfCase(records, ids[k])|
    ensures SumPassed(records, ids[..k + 1]) == SumPassed(records, ids[..k]) + Passed(OfCase(records, ids[k]))
  {
    assert ids[..k + 1][..k] == ids[..k];
  }

  function Unstable(cases: seq<Summarized>): nat
  {
    if cases == [] then 0 else
    var n := |cases| - 1;
    Unstable(cases[..n]) + if cases[n].stable then 0 else 1
  }

  /** The report after the cases `ids`: an entry for each, and the totals. */
  ghost predicate ReportIs(records: seq<Record>, ids: seq<string>, digest: string -> string, report: Report)
  {
    && |report.cases| == |ids|
    && (forall i :: 0 <= i < |ids| ==> Summarizes(report.cases[i], OfCase(records, ids[i]), ids[i], digest))
    && report.samples == SumSamples(records, ids) && report.passed == SumPassed(records, ids)
    && report.passed + report.failed == report.samples && report.unstable == Unstable(report.cases)
  }

  function Extended(report: Report, entry: Summarized): Report
  {
    Report(report.cases + [entry], report.samples + entry.samples, report.passed + entry.passed,
           report.failed + entry.failed, report.unstable + if entry.stable then 0 else 1)
  }

  lemma ReportSnoc(records: seq<Record>, ids: seq<string>, k: nat, digest: string -> string, report: Report, entry: Summarized)
    requires k < |ids| && ReportIs(records, ids[..k], digest, report)
    requires Summarizes(entry, OfCase(records, ids[k]), ids[k], digest)
    ensures ReportIs(records, ids[..k + 1], digest, Extended(report, entry))
  {
    SumsSnoc(records, ids, k);
    var more := Extended(report, entry);
    assert more.cases[..k] == report.cases;
    forall i | 0 <= i < k + 1 ensures Summarizes(more.cases[i], OfCase(records, ids[..k + 1][i]), ids[..k + 1][i], digest) {
      if i < k { assert more.cases[i] == report.cases[i] && ids[..k + 1][i] == ids[..k][i]; }
    }
  }

  /** The case loop of `aggregate`, with the running totals. */
  method SummarizeCases(ghost records: seq<Record>, grouped: map<string, seq<Record>>, ids: seq<string>, digest: string -> string)
    returns (report: Report)
    requires Groups(records, grouped) && forall i :: 0 <= i < |ids| ==> ids[i] in grouped
    ensures ReportIs(records, ids, digest, report)
  {
    report := Report([], 0, 0, 0, 0);
    for k := 0 to |ids|
      invariant ReportIs(records, ids[..k], digest, report)
    {
      var entry := SummarizeCase(grouped[ids[k]], ids[k], digest);
      ReportSnoc(records, ids, k, digest, report, entry);
      report := Extended(report, entry);
    }
    WholePrefix(ids);
  }

  /** `aggregate`: one entry per case, in name order, about its own records; the
      totals partition the records. */
  method Aggregate(records: seq<Record>, digest: string -> string) returns (report: Report, ids: seq<string>)
    ensures CaseNames(records, ids) && |report.cases| == |ids|
    ensures forall i :: 0 <= i < |ids| ==> Summarizes(report.cases[i], OfCase(records, ids[i]), ids[i], digest)
    ensures report.samples == |records| && report.unstable == Unstable(report.cases)
    ensures report.passed == Passed(records) && report.passed + report.failed == report.samples
  {
    var grouped := GroupByCase(records);
    ids := SortedText.Sorted(grouped.Keys);
    assert forall i :: 0 <= i < |ids| ==> ids[i] in ids;
    report := SummarizeCases(records, grouped, ids, digest);
    GroupingPartitions(records, ids);
  }

  lemma {:induction false} FailuresOfPassed(records: seq<Record>)
    requires forall k :: 0 <= k < |records| - 1 ==> records[k].passed
    ensures |records| - Passed(records) == if records != [] && !records[|records| - 1].passed then 1 else 0
    decreases |records|
  {
    if |records| > 1 { FailuresOfPassed(records[1..]); }
  }

  /** Harness and report, one after the other: the report is about exactly the
      records of the run, counts at most one failure, and one only if the run failed. */
  method HarnessReport(cases: seq<Case>, digest: string -> string) returns (exit: Exit, report: Report)
    ensures exit == Harness(cases).exit && report.samples == |Harness(cases).records|
    ensures report.failed <= 1 && (report.failed == 1 ==> exit == HarnessError)
    ensures exit.Completed? ==> report.failed == 0
  {
    var recorder := new BenchRecorder();
    exit := recorder.RunAll(cases);
    var ids;
    report, ids := Aggregate(recorder.records, digest);
    AtMostOneFailure(cases);
    FailuresOfPassed(recorder.records);
  }
}
