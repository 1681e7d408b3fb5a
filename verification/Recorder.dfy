/** The benchmark recorder of scripts/phase0_harness.py. */
module Recorder {
  import opened Text

  /** One call of the measured operation: a summary, an `Exception`, or a
      `BaseException` that no handler of the recorder catches. */
  datatype Call = Summary(text: string) | Raised(category: string) | Escaped

  /** What the clock and the process report about one call; a figure may be missing. */
  datatype Metrics = Metrics(wall: Option<int>, before: Option<int>, after: Option<int>)

  /** A case to run; `operation(k)` is what the `k`-th call does, `metrics(k)` what was measured. */
  datatype Case = Case(id: string, known: bool, operation: nat -> Call, metrics: nat -> Metrics, samples: int, warmups: int)

  /** `content` is the summary of a passed sample, the error category of a failed one. */
  datatype Record = Record(caseId: string, index: int, count: int, passed: bool, content: string, metrics: Metrics)

  datatype Exit = Completed(summary: string) | HarnessError | Interrupted

  datatype Outcome = Outcome(records: seq<Record>, exit: Exit)

  // ----- one case -----

  /** The warmup loop from call `k` on: `Completed` when nothing was raised. */
  function Warmup(c: Case, k: nat): Exit
    decreases c.warmups - k
  {
    if k >= c.warmups then Completed("")
    else match c.operation(k)
      case Summary(_) => Warmup(c, k + 1)
      case Raised(_) => HarnessError
      case Escaped => Interrupted
  }

  /** The record of sample `i`, counted from zero. */
  function Sampled(c: Case, i: nat, passed: bool, content: string): Record
  {
    Record(c.id, i + 1, c.samples, passed, content, c.metrics(Calls(c) + i))
  }

  /** The sample loop from sample `i` (counted from zero) on. */
  function Samples(c: Case, i: nat, last: string): Outcome
    decreases c.samples - i
  {
    if i >= c.samples then Outcome([], Completed(last))
    else match c.operation(Calls(c) + i)
      case Summary(text) =>
        var rest := Samples(c, i + 1, text);
        Outcome([Sampled(c, i, true, text)] + rest.records, rest.exit)
      case Raised(category) => Outcome([Sampled(c, i, false, category)], HarnessError)
      case Escaped => Outcome([], Interrupted)
  }

  function Calls(c: Case): nat
  {
    if c.warmups < 0 then 0 else c.warmups
  }

  /** What `Recorder.run` adds and how it ends. */
  function Added(c: Case): Outcome
  {
    if !c.known || c.samples < 1 || c.warmups < 0 then Outcome([], HarnessError)
    else match Warmup(c, 0)
      case Completed(_) => Samples(c, 0, "")
      case exit => Outcome([], exit)
  }

  /** The passed record of sample `i`, with the summary of its own call. */
  ghost predicate IsSample(c: Case, i: nat, r: Record)
  {
    && c.operation(Calls(c) + i).Summary?
    && r == Sampled(c, i, true, c.operation(Calls(c) + i).text)
  }

  /** Passed records of consecutive samples from sample `i` on. */
  ghost predicate PassedFrom(c: Case, i: nat, rs: seq<Record>)
  {
    forall k :: 0 <= k < |rs| ==> IsSample(c, i + k, rs[k])
  }

  lemma PassedCons(c: Case, i: nat, head: Record, rest: seq<Record>)
    requires IsSample(c, i, head) && PassedFrom(c, i + 1, rest)
    ensures PassedFrom(c, i, [head] + rest)
  {
    var all := [head] + rest;
    forall k | 0 <= k < |all| ensures IsSample(c, i + k, all[k]) {
      if k > 0 { assert IsSample(c, i + 1 + (k - 1), rest[k - 1]); }
    }
  }

  /** What the sample loop may add from sample `i` on, by the way it ended. */
  ghost predicate SamplesOk(c: Case, i: nat, o: Outcome)
  {
    match o.exit
    case Completed(_) => |o.records| == c.samples - i && PassedFrom(c, i, o.records)
    case Interrupted => |o.records| < c.samples - i && PassedFrom(c, i, o.records)
    case HarnessError =>
      && o.records != []
      && var n := |o.records| - 1;
      && PassedFrom(c, i, o.records[..n]) && !o.records[n].passed && o.records[n].index == i + n + 1
  }

  lemma SamplesOkCons(c: Case, i: nat, head: Record, rest: Outcome)
    requires IsSample(c, i, head) && SamplesOk(c, i + 1, rest)
    ensures SamplesOk(c, i, Outcome([head] + rest.records, rest.exit))
  {
    if rest.exit == HarnessError {
      var n := |rest.records| - 1;
      PassedCons(c, i, head, rest.records[..n]);
      assert ([head] + rest.records)[..n + 1] == [head] + rest.records[..n];
    } else {
      PassedCons(c, i, head, rest.records);
    }
  }

  lemma {:induction false} SamplesShape(c: Case, i: nat, last: string)
    requires i <= c.samples
    ensures SamplesOk(c, i, Samples(c, i, last))
    decreases c.samples - i
  {
    if i < c.samples {
      match c.operation(Calls(c) + i)
      case Summary(text) =>
        SamplesShape(c, i + 1, text);
        SamplesOkCons(c, i, Sampled(c, i, true, text), Samples(c, i + 1, text));
      case Raised(category) =>
        assert [Sampled(c, i, false, category)][..0] == [];
      case Escaped =>
    }
  }

  /** A completed run adds exactly its samples, numbered from 1 and all passed;
      a failed sample adds the passed ones before it and itself, last; a failed
      warmup or a rejected configuration adds nothing. */
  lemma RunAddsItsSamples(c: Case)
    ensures var o := Added(c);
            && (o.exit.Completed? ==> |o.records| == c.samples >= 1 && PassedFrom(c, 0, o.records))
            && (forall k :: 0 <= k < |o.records| - 1 ==> o.records[k].passed)
            && (o.records != [] && !o.records[|o.records| - 1].passed ==> o.exit == HarnessError)
            && ((!c.known || c.samples < 1 || c.warmups < 0 || !Warmup(c, 0).Completed?) ==> o.records == [])
  {
    if c.known && c.samples >= 1 && c.warmups >= 0 && Warmup(c, 0).Completed? {
      SamplesShape(c, 0, "");
    }
  }

  // ----- a run, call by call -----

  /** The record of call `k` of a case, by its fields. */
  ghost predicate Reports(c: Case, k: nat, r: Record)
    requires 0 <= c.warmups <= k
  {
    && r.caseId == c.id && r.index == k - c.warmups + 1 && r.count == c.samples && r.metrics == c.metrics(k)
    && match c.operation(k)
       case Summary(text) => r.passed && r.content == text
       case Raised(category) => !r.passed && r.content == category
       case Escaped => false
  }

  /** A run that made its calls up to and with call `k`, the first that gave no summary. */
  ghost predicate StoppedAt(c: Case, k: nat, o: Outcome)
    requires 0 <= c.warmups
  {
    && !c.operation(k).Summary?
    && o.exit == (if c.operation(k).Raised? then HarnessError else Interrupted)
    && |o.records| == (if k < c.warmups then 0 else k - c.warmups + if c.operation(k).Raised? then 1 else 0)
  }

  /** What a run does, call by call: warmups and samples up to the first call
      that gives no summary, if any; every sample, passed or failed, has its own
      record, and the last summary is returned if all calls gave one. */
  ghost predicate Recounts(c: Case, k: nat, o: Outcome)
    requires 0 <= c.warmups && 1 <= c.samples
  {
    && k <= c.warmups + c.samples
    && (forall j :: 0 <= j < k ==> c.operation(j).Summary?)
    && (forall i :: 0 <= i < |o.records| ==> Reports(c, c.warmups + i, o.records[i]))
    && if k < c.warmups + c.samples then StoppedAt(c, k, o)
       else |o.records| == c.samples && o.exit == Completed(c.operation(k - 1).text)
  }

  lemma {:induction false} WarmupExactly(c: Case, from: nat) returns (k: nat)
    requires from <= c.warmups
    ensures from <= k <= c.warmups && (forall j :: from <= j < k ==> c.operation(j).Summary?)
    ensures k == c.warmups ==> Warmup(c, from) == Completed("")
    ensures k < c.warmups ==> !c.operation(k).Summary? && Warmup(c, from) == (if c.operation(k).Raised? then HarnessError else Interrupted)
    decreases c.warmups - from
  {
    if from < c.warmups && c.operation(from).Summary? {
      k := WarmupExactly(c, from + 1);
    } else {
      k := from;
    }
  }

  lemma {:induction false} SamplesExactly(c: Case, from: nat, last: string) returns (k: nat)
    requires 0 <= c.warmups && from <= c.samples
    ensures var o := Samples(c, from, last);
            && from <= k <= c.samples && (forall j :: c.warmups + from <= j < c.warmups + k ==> c.operation(j).Summary?)
            && (forall i :: 0 <= i < |o.records| ==> Reports(c, c.warmups + from + i, o.records[i]))
            && if k == c.samples then
                 |o.records| == k - from && o.exit == Completed(if k == from then last else c.operation(c.warmups + k - 1).text)
               else
                 var call := c.operation(c.warmups + k);
                 && !call.Summary? && o.exit == (if call.Raised? then HarnessError else Interrupted)
                 && |o.records| == k - from + if call.Raised? then 1 else 0
    decreases c.samples - from
  {
    k := from;
    if from < c.samples && c.operation(c.warmups + from).Summary? {
      var text := c.operation(c.warmups + from).text;
      var rest := Samples(c, from + 1, text);
      k := SamplesExactly(c, from + 1, text);
      var all := Samples(c, from, last).records;
      forall i | 0 <= i < |all| ensures Reports(c, c.warmups + from + i, all[i]) {
        if i > 0 { assert all[i] == rest.records[i - 1] && Reports(c, c.warmups + (from + 1) + (i - 1), rest.records[i - 1]); }
      }
    }
  }

  /** A run with a valid configuration is recounted by its calls, a run without adds nothing. */
  lemma RunExactly(c: Case) returns (k: nat)
    ensures if c.known && 1 <= c.samples && 0 <= c.warmups then Recounts(c, k, Added(c))
            else Added(c) == Outcome([], HarnessError)
  {
    k := 0;
    if c.known && 1 <= c.samples && 0 <= c.warmups {
      k := WarmupExactly(c, 0);
      if k == c.warmups {
        var n := SamplesExactly(c, 0, "");
        k := c.warmups + n;
      }
    }
  }

  // ----- a harness run -----

  /** The cases one after the other; the caller stops at the first that does not complete. */
  function Harness(cases: seq<Case>): Outcome
  {
    if cases == [] then Outcome([], Completed("")) else
    var o := Added(cases[0]);
    if !o.exit.Completed? then o else
    var rest := Harness(cases[1..]);
    Outcome(o.records + rest.records, rest.exit)
  }

  /** In every harness run at most one record failed, and it is the last one;
      it is there only if the run ended with the harness error. */
  lemma {:induction false} AtMostOneFailure(cases: seq<Case>)
    ensures var o := Harness(cases);
            && (forall k :: 0 <= k < |o.records| - 1 ==> o.records[k].passed)
            && (o.records != [] && !o.records[|o.records| - 1].passed ==> o.exit == HarnessError)
    decreases |cases|
  {
    if cases != [] {
      RunAddsItsSamples(cases[0]);
      AtMostOneFailure(cases[1..]);
    }
  }

  /** The records of the cases, joined. */
  function Joined(cases: seq<Case>): seq<Record>
  {
    if cases == [] then [] else
    var n := |cases| - 1;
    Joined(cases[..n]) + Added(cases[n]).records
  }

  lemma {:induction false} JoinedCons(c: Case, cases: seq<Case>)
    ensures Joined([c] + cases) == Added(c).records + Joined(cases)
    decreases |cases|
  {
    if cases == [] {
      assert ([c] + cases)[..0] == [];
    } else {
      var n := |cases| - 1;
      JoinedCons(c, cases[..n]);
      assert ([c] + cases)[..n + 1] == [c] + cases[..n] && ([c] + cases)[n + 1] == cases[n];
      Assoc(Added(c).records, Joined(cases[..n]), Added(cases[n]).records);
    }
  }

  /** A harness run holds the records of every case up to and with the first that
      does not complete, and ends as that case did. */
  lemma {:induction false} HarnessExactly(cases: seq<Case>) returns (k: nat)
    ensures k <= |cases| && forall j :: 0 <= j < k ==> Added(cases[j]).exit.Completed?
    ensures k == |cases| ==> Harness(cases) == Outcome(Joined(cases), Completed(""))
    ensures k < |cases| ==> !Added(cases[k]).exit.Completed?
    ensures k < |cases| ==> Harness(cases) == Outcome(Joined(cases[..k + 1]), Added(cases[k]).exit)
    decreases |cases|
  {
    k := 0;
    if cases != [] {
      var c, rest := cases[0], cases[1..];
      assert cases == [c] + rest;
      if Added(c).exit.Completed? {
        var n := HarnessExactly(rest);
        k := n + 1;
        JoinedCons(c, if n < |rest| then rest[..n + 1] else rest);
        assert n < |rest| ==> cases[..n + 2] == [c] + rest[..n + 1];
      } else {
        JoinedCons(c, []);
        assert cases[..1] == [c] + [];
      }
    }
  }

  class BenchRecorder {
    var records: seq<Record>

    constructor ()
      ensures records == []
    {
      records := [];
    }

    /** `_run_sample`. */
    method RunSample(c: Case, i: nat) returns (exit: Exit)
      requires i < c.samples
      modifies this
      ensures match c.operation(Calls(c) + i)
              case Summary(text) =>
                records == old(records) + [Sampled(c, i, true, text)] && exit == Completed(text)
              case Raised(category) =>
                records == old(records) + [Sampled(c, i, false, category)] && exit == HarnessError
              case Escaped => records == old(records) && exit == Interrupted
    {
      match c.operation(Calls(c) + i) {
        case Summary(text) =>
          records := records + [Sampled(c, i, true, text)];
          return Completed(text);
        case Raised(category) =>
          records := records + [Sampled(c, i, false, category)];
          return HarnessError;
        case Escaped =>
          return Interrupted;
      }
    }

    /** `run`. */
    method Run(c: Case) returns (exit: Exit)
      modifies this
      ensures records == old(records) + Added(c).records && exit == Added(c).exit
    {
      if !c.known || c.samples < 1 || c.warmups < 0 { return HarnessError; }
      for k := 0 to c.warmups
        invariant records == old(records) && Warmup(c, 0) == Warmup(c, k)
      {
        match c.operation(k) {
          case Summary(_) =>
          case Raised(_) => return HarnessError;
          case Escaped => return Interrupted;
        }
      }
      var last := "";
      for i := 0 to c.samples
        invariant old(records) + Samples(c, 0, "").records == records + Samples(c, i, last).records
        invariant Samples(c, 0, "").exit == Samples(c, i, last).exit
      {
        exit := RunSample(c, i);
        if !exit.Completed? { return; }
        last := exit.summary;
      }
      return Completed(last);
    }

    /** The cases of `main` one after the other, up to the first that raises. */
    method RunAll(cases: seq<Case>) returns (exit: Exit)
      requires records == []
      modifies this
      ensures records == Harness(cases).records && exit == Harness(cases).exit
    {
      assert cases[0..] == cases;
      for k := 0 to |cases|
        invariant records + Harness(cases[k..]).records == Harness(cases).records
        invariant Harness(cases[k..]).exit == Harness(cases).exit
      {
        assert cases[k..][1..] == cases[k + 1..];
        ghost var before := records;
        exit := Run(cases[k]);
        if !exit.Completed? { return; }
        Assoc(before, Added(cases[k]).records, Harness(cases[k + 1..]).records);
      }
      assert cases[|cases|..] == [];
      return Completed("");
    }
  }
}
