/** Safety of every run of a campaign, for every environment. */
module CampaignSafety {
  import opened Text
  import opened Campaign

  // ----- vocabulary of traces -----

  function Commands(trace: Trace): (r: seq<Command>)
    ensures |r| == |trace| && forall i :: 0 <= i < |trace| ==> r[i] == trace[i].command
  {
    seq(|trace|, i requires 0 <= i < |trace| => trace[i].command)
  }

  function StartCommands(files: seq<File>): seq<Command>
  {
    if files == [] then [] else [Config(files[0]), Down(files[0]), Up(files[0])] + StartCommands(files[1..])
  }

  /** `down` for every started file, last started first. */
  function Downs(started: seq<File>): (r: seq<Command>)
    ensures |r| == |started|
  {
    if started == [] then [] else [Down(started[|started| - 1])] + Downs(started[..|started| - 1])
  }

  predicate AllReturned(trace: Trace)
  {
    forall i :: 0 <= i < |trace| ==> trace[i].reply.Returned?
  }

  /** Files that may be up: an `up` counts even if it failed, a `down` only if it succeeded. */
  function Running(trace: Trace): set<File>
  {
    if trace == [] then {} else
    var n := |trace| - 1;
    After(Running(trace[..n]), trace[n])
  }

  function After(before: set<File>, e: Event): set<File>
  {
    if e.command.Up? then before + {e.command.file}
    else if e.command.Down? && e.reply.Returned? then before - {e.command.file}
    else before
  }

  /** Every `up` comes right after a successful `down` of the same file. */
  predicate DownBeforeUp(trace: Trace)
  {
    forall i :: 0 <= i < |trace| && trace[i].command.Up? ==>
      i > 0 && trace[i - 1].command == Down(trace[i].command.file) && trace[i - 1].reply.Returned?
  }

  lemma DoRunning(world: World, trace: Trace, c: Command)
    ensures Running(Do(world, trace, c)) == After(Running(trace), Event(c, world(trace, c)))
  {
    var t := Do(world, trace, c);
    assert t[..|t| - 1] == trace;
  }

  lemma DoCommands(world: World, trace: Trace, c: Command)
    ensures Commands(Do(world, trace, c)) == Commands(trace) + [c]
    ensures AllReturned(Do(world, trace, c)) <==> AllReturned(trace) && Last(Do(world, trace, c)).Returned?
  {
    var t := Do(world, trace, c);
    assert forall i :: 0 <= i < |trace| ==> t[i] == trace[i];
  }

  lemma DoGuarded(world: World, trace: Trace, c: Command)
    requires DownBeforeUp(trace)
    requires c.Up? ==> trace != [] && trace[|trace| - 1].command == Down(c.file) && Last(trace).Returned?
    ensures DownBeforeUp(Do(world, trace, c))
  {
    var t := Do(world, trace, c);
    assert forall i :: 0 <= i < |trace| ==> t[i] == trace[i];
  }

  // ----- start -----

  lemma {:induction false} StartTrace(world: World, trace: Trace, files: seq<File>, started: seq<File>)
    requires DownBeforeUp(trace)
    ensures var s := Start(world, trace, files, started);
            && trace <= s.trace && DownBeforeUp(s.trace)
            && (s.failure.Some? ==> s.trace != [] && Last(s.trace) == Raised(s.failure.value))
    decreases |files|
  {
    if files != [] {
      var f := files[0];
      var t1 := Do(world, trace, Config(f));
      DoGuarded(world, trace, Config(f));
      if Last(t1).Returned? {
        var t2 := Do(world, t1, Down(f));
        DoGuarded(world, t1, Down(f));
        if Last(t2).Returned? {
          DoGuarded(world, t2, Up(f));
          StartTrace(world, Do(world, t2, Up(f)), files[1..], started + [f]);
        }
      }
    }
  }

  lemma {:induction false} StartFiles(world: World, trace: Trace, files: seq<File>, started: seq<File>)
    ensures var s := Start(world, trace, files, started);
            started <= s.started <= started + files && (s.failure == None ==> s.started == started + files)
    decreases |files|
  {
    if files == [] {
      assert started + files == started;
    } else {
      var f := files[0];
      var t3 := Do(world, Do(world, Do(world, trace, Config(f)), Down(f)), Up(f));
      assert (started + [f]) + files[1..] == started + files;
      StartFiles(world, t3, files[1..], started + [f]);
    }
  }

  lemma {:induction false} StartRunning(world: World, trace: Trace, files: seq<File>, started: seq<File>)
    ensures var s := Start(world, trace, files, started);
            forall x :: x in Running(s.trace) ==> x in Running(trace) || x in s.started
    decreases |files|
  {
    if files != [] {
      var f := files[0];
      var t1 := Do(world, trace, Config(f));
      var t2 := Do(world, t1, Down(f));
      var t3 := Do(world, t2, Up(f));
      DoRunning(world, trace, Config(f));
      DoRunning(world, t1, Down(f));
      DoRunning(world, t2, Up(f));
      assert f in started + [f];
      StartFiles(world, t3, files[1..], started + [f]);
      StartRunning(world, t3, files[1..], started + [f]);
      var deeper := Start(world, t3, files[1..], started + [f]);
      assert deeper.started[|started|] == f;
    }
  }

  lemma {:induction false} StartSucceeded(world: World, trace: Trace, files: seq<File>, started: seq<File>)
    requires Start(world, trace, files, started).failure == None
    ensures var s := Start(world, trace, files, started);
            && Commands(s.trace) == Commands(trace) + StartCommands(files)
            && (AllReturned(trace) ==> AllReturned(s.trace))
    decreases |files|
  {
    if files != [] {
      var f := files[0];
      var t1 := Do(world, trace, Config(f));
      var t2 := Do(world, t1, Down(f));
      DoCommands(world, trace, Config(f));
      DoCommands(world, t1, Down(f));
      DoCommands(world, t2, Up(f));
      StartSucceeded(world, Do(world, t2, Up(f)), files[1..], started + [f]);
      Regroup(Commands(trace), Config(f), Down(f), Up(f), StartCommands(files[1..]));
    }
  }

  lemma Regroup(c: seq<Command>, x: Command, y: Command, z: Command, rest: seq<Command>)
    ensures c + [x] + [y] + [z] + rest == c + ([x, y, z] + rest)
  {}

  // ----- stop -----

  lemma {:induction false} StopTrace(world: World, trace: Trace, started: seq<File>, failures: seq<File>)
    requires DownBeforeUp(trace)
    ensures var s := Stop(world, trace, started, failures);
            && trace <= s.trace && DownBeforeUp(s.trace)
            && (s.interrupted.Some? ==>
                  s.trace != [] && Last(s.trace) == Raised(s.interrupted.value) && !s.interrupted.value.caught)
    decreases |started|
  {
    if started != [] {
      var n := |started| - 1;
      var t := Do(world, trace, Down(started[n]));
      DoGuarded(world, trace, Down(started[n]));
      StopTrace(world, t, started[..n], if Last(t).Raised? then failures + [started[n]] else failures);
    }
  }

  lemma {:induction false} StopCommands(world: World, trace: Trace, started: seq<File>, failures: seq<File>)
    requires Stop(world, trace, started, failures).interrupted == None
    ensures var s := Stop(world, trace, started, failures);
            && Commands(s.trace) == Commands(trace) + Downs(started)
            && (AllReturned(s.trace) <==> AllReturned(trace) && s.failures == failures)
            && |s.failures| >= |failures|
    decreases |started|
  {
    if started != [] {
      var n := |started| - 1;
      var f := started[n];
      var t := Do(world, trace, Down(f));
      DoCommands(world, trace, Down(f));
      StopCommands(world, t, started[..n], if Last(t).Raised? then failures + [f] else failures);
      assert Commands(trace) + [Down(f)] + Downs(started[..n]) == Commands(trace) + ([Down(f)] + Downs(started[..n]));
    }
  }

  /** After cleanup only files whose `down` failed, or that were not to be stopped, may be up. */
  lemma {:induction false} StopRunning(world: World, trace: Trace, started: seq<File>, failures: seq<File>, x: File)
    requires Stop(world, trace, started, failures).interrupted == None
    requires x in Running(Stop(world, trace, started, failures).trace) && x in started
    ensures var s := Stop(world, trace, started, failures);
            exists i :: |trace| <= i < |s.trace| && s.trace[i].command == Down(x) && s.trace[i].reply.Raised?
    decreases |started|
  {
    var n := |started| - 1;
    var f := started[n];
    var t := Do(world, trace, Down(f));
    var more := if Last(t).Raised? then failures + [f] else failures;
    var s := Stop(world, trace, started, failures);
    StopExtends(world, t, started[..n], more);
    DoRunning(world, trace, Down(f));
    if x == f && Last(t).Raised? {
      assert s.trace[|trace|] == t[|trace|];
    } else if x in started[..n] {
      StopRunning(world, t, started[..n], more, x);
    } else {
      StopAddsNothing(world, t, started[..n], more);
    }
  }

  lemma {:induction false} StopAddsNothing(world: World, trace: Trace, started: seq<File>, failures: seq<File>)
    ensures Running(Stop(world, trace, started, failures).trace) <= Running(trace)
    decreases |started|
  {
    if started != [] {
      var n := |started| - 1;
      var t := Do(world, trace, Down(started[n]));
      DoRunning(world, trace, Down(started[n]));
      assert Running(t) <= Running(trace);
      if Last(t).Returned? {
        StopAddsNothing(world, t, started[..n], failures);
      } else if Last(t).failure.caught {
        StopAddsNothing(world, t, started[..n], failures + [started[n]]);
      }
    }
  }

  lemma {:induction false} StopExtends(world: World, trace: Trace, started: seq<File>, failures: seq<File>)
    ensures trace <= Stop(world, trace, started, failures).trace
    decreases |started|
  {
    if started != [] {
      var n := |started| - 1;
      var t := Do(world, trace, Down(started[n]));
      StopExtends(world, t, started[..n], if Last(t).Raised? then failures + [started[n]] else failures);
    }
  }

  lemma {:induction false} CollectShape(world: World, trace: Trace, wanted: seq<Command>)
    requires DownBeforeUp(trace)
    requires forall i :: 0 <= i < |wanted| ==> wanted[i] == MakeDirectory || wanted[i] == ListContainers || wanted[i].Logs?
    ensures var s := Collect(world, trace, wanted);
            && trace <= s.trace && DownBeforeUp(s.trace) && Running(s.trace) == Running(trace)
            && (s.interrupted.Some? ==>
                  s.trace != [] && Last(s.trace) == Raised(s.interrupted.value) && !s.interrupted.value.caught)
    decreases |wanted|
  {
    if wanted != [] {
      var t := Do(world, trace, wanted[0]);
      DoRunning(world, trace, wanted[0]);
      DoGuarded(world, trace, wanted[0]);
      CollectShape(world, t, wanted[1..]);
    }
  }

  // ----- the `try` block -----

  lemma MeasureShape(world: World, s: Started, at: string)
    requires DownBeforeUp(s.trace)
    requires s.failure.Some? ==> s.trace != [] && Last(s.trace).Raised?
    ensures var a := MeasureAndConfirm(world, s, at);
            && s.trace <= a.trace && DownBeforeUp(a.trace) && a.started == s.started
            && (a.result == None ==> a.reason == RepositoryMoved || (a.trace != [] && Last(a.trace).Raised?))
  {
    if s.failure == None {
      var t1 := Do(world, s.trace, Measure);
      DoGuarded(world, s.trace, Measure);
      DoGuarded(world, t1, Preflight);
    }
  }

  lemma AttemptShape(world: World, trace: Trace, at: string, files: seq<File>)
    requires DownBeforeUp(trace)
    ensures var a := Attempt(world, trace, at, files);
            && trace <= a.trace && DownBeforeUp(a.trace)
            && a.started <= files
            && (a.result == None ==> a.reason == RepositoryMoved || (a.trace != [] && Last(a.trace).Raised?))
  {
    var s := Start(world, trace, files, []);
    StartTrace(world, trace, files, []);
    StartFiles(world, trace, files, []);
    assert [] + files == files;
    MeasureShape(world, s, at);
    PrefixGrows(trace, s.trace, MeasureAndConfirm(world, s, at).trace);
  }

  lemma PrefixGrows(a: Trace, b: Trace, c: Trace)
    requires a <= b <= c
    ensures a <= c
  {}

  lemma PrefixReturned(a: Trace, b: Trace)
    requires a <= b && AllReturned(b)
    ensures AllReturned(a)
  {
    assert forall i :: 0 <= i < |a| ==> a[i] == b[i];
  }

  /** Measuring and the postflight start and stop nothing. */
  lemma MeasureRunning(world: World, s: Started, at: string)
    ensures Running(MeasureAndConfirm(world, s, at).trace) == Running(s.trace)
  {
    var t1 := Do(world, s.trace, Measure);
    var t2 := Do(world, t1, Preflight);
    DoNeutral(world, s.trace, Measure);
    DoNeutral(world, t1, Preflight);
    var last := MeasureAndConfirm(world, s, at).trace;
    assert last == s.trace || last == t1 || last == t2;
  }

  lemma DoNeutral(world: World, trace: Trace, c: Command)
    requires !c.Up? && !c.Down?
    ensures Running(Do(world, trace, c)) == Running(trace)
  {
    DoRunning(world, trace, c);
  }

  lemma AttemptRunning(world: World, trace: Trace, at: string, files: seq<File>)
    ensures var a := Attempt(world, trace, at, files);
            forall x :: x in Running(a.trace) ==> x in Running(trace) || x in a.started
  {
    StartRunning(world, trace, files, []);
    MeasureRunning(world, Start(world, trace, files, []), at);
  }

  lemma AttemptSucceeded(world: World, trace: Trace, at: string, files: seq<File>)
    requires Attempt(world, trace, at, files).result.Some? && AllReturned(trace)
    ensures var a := Attempt(world, trace, at, files);
            && a.started == files && AllReturned(a.trace)
            && Commands(a.trace) == Commands(trace) + StartCommands(files) + [Measure, Preflight]
            && |a.trace| >= 2
            && a.trace[|a.trace| - 2].reply == Returned(a.result.value)
            && Last(a.trace) == Returned(at)
  {
    var s := Start(world, trace, files, []);
    StartSucceeded(world, trace, files, []);
    StartFiles(world, trace, files, []);
    assert [] + files == files;
    var t1 := Do(world, s.trace, Measure);
    DoCommands(world, s.trace, Measure);
    DoCommands(world, t1, Preflight);
    var c := Commands(s.trace);
    assert c + [Measure] + [Preflight] == c + [Measure, Preflight];
  }

  /** The state in which cleanup starts: after the attempt and, on failure, the diagnostics. */
  function BeforeCleanup(world: World, a: Attempted, diagnose: bool): Stopped
  {
    if a.result == None && diagnose then Collect(world, a.trace, Diagnostics(a.started))
    else Stopped(a.trace, [], None)
  }

  lemma BeforeCleanupShape(world: World, a: Attempted, diagnose: bool)
    requires DownBeforeUp(a.trace)
    ensures var d := BeforeCleanup(world, a, diagnose);
            && a.trace <= d.trace && DownBeforeUp(d.trace) && Running(d.trace) == Running(a.trace)
            && (d.interrupted.Some? ==> d.trace != [] && Last(d.trace) == Raised(d.interrupted.value) && !d.interrupted.value.caught)
  {
    if a.result == None && diagnose { CollectShape(world, a.trace, Diagnostics(a.started)); }
  }

  // ----- whole runs -----

  lemma FirstStep(world: World)
    ensures var t := Do(world, [], Preflight);
            |t| == 1 && t[0].command == Preflight && Running(t) == {} && DownBeforeUp(t)
            && Commands(t) == [Preflight] && (Last(t).Returned? ==> AllReturned(t))
  {
    DoRunning(world, [], Preflight);
    DoCommands(world, [], Preflight);
    DoGuarded(world, [], Preflight);
    assert Commands([]) + [Preflight] == [Preflight];
  }

  /** What follows the attempt only adds events, keeps the start discipline, and
      can be interrupted only by an uncaught failure, which is then last and the error. */
  lemma FinishShape(world: World, a: Attempted, diagnose: bool, keep: bool)
    requires DownBeforeUp(a.trace)
    ensures var run := Finish(world, a, diagnose, keep);
            && a.trace <= run.trace && DownBeforeUp(run.trace) && run.started == a.started
            && (run.interrupted.Some? ==>
                  && run.trace != [] && Last(run.trace) == Raised(run.interrupted.value)
                  && !run.interrupted.value.caught && run.exit == Error(Step(run.interrupted.value)))
  {
    BeforeCleanupShape(world, a, diagnose);
    StopTrace(world, BeforeCleanup(world, a, diagnose).trace, a.started, []);
  }

  /** Everything `Whole` does after a successful first preflight. */
  lemma WholeShape(world: World, files: seq<File>, diagnose: bool, keep: bool)
    ensures var t := Do(world, [], Preflight);
            var run := Whole(world, files, diagnose, keep);
            && t <= run.trace && |t| == 1 && t[0].command == Preflight && DownBeforeUp(run.trace)
            && run.started <= files
            && (Last(t).Raised? ==> run.trace == t && run.interrupted == None && run.started == [])
            && (run.interrupted.Some? ==>
                  && Last(run.trace) == Raised(run.interrupted.value)
                  && !run.interrupted.value.caught && run.exit == Error(Step(run.interrupted.value)))
  {
    FirstStep(world);
    var t := Do(world, [], Preflight);
    if Last(t).Returned? {
      AttemptShape(world, t, Last(t).value, files);
      FinishShape(world, Attempt(world, t, Last(t).value, files), diagnose, keep);
    }
  }

  /** No command reaches Docker before a successful preflight. */
  lemma PreflightComesFirst(world: World, files: seq<File>, diagnose: bool, keep: bool)
    ensures var run := Whole(world, files, diagnose, keep);
            && run.trace != [] && run.trace[0].command == Preflight
            && (|run.trace| > 1 ==> run.trace[0].reply.Returned?)
  {
    WholeShape(world, files, diagnose, keep);
  }

  /** Every `up` of every run comes right after a successful `down` of that file. */
  lemma StartsFromKnownState(world: World, files: seq<File>, diagnose: bool, keep: bool)
    ensures DownBeforeUp(Whole(world, files, diagnose, keep).trace)
  {
    WholeShape(world, files, diagnose, keep);
  }

  /** Only an exception outside the caught classes can interrupt cleanup or
      diagnostics; it is then the last event and the error of the run. */
  lemma InterruptionIsUncaught(world: World, files: seq<File>, diagnose: bool, keep: bool)
    ensures var run := Whole(world, files, diagnose, keep);
            run.interrupted.Some? ==>
              && run.trace != [] && Last(run.trace) == Raised(run.interrupted.value)
              && !run.interrupted.value.caught && run.exit == Error(Step(run.interrupted.value))
  {
    WholeShape(world, files, diagnose, keep);
  }

  /** Failures of `down` and of the diagnostics are all of the caught classes. */
  ghost predicate CleanupIsCaught(world: World)
  {
    forall trace: Trace, c: Command :: c.Down? || c.Logs? || c == MakeDirectory || c == ListContainers ==>
      world(trace, c).Raised? ==> world(trace, c).failure.caught
  }

  lemma {:induction false} StopIsCaught(world: World, trace: Trace, started: seq<File>, failures: seq<File>)
    requires CleanupIsCaught(world)
    ensures Stop(world, trace, started, failures).interrupted == None
    decreases |started|
  {
    if started != [] {
      var n := |started| - 1;
      var t := Do(world, trace, Down(started[n]));
      assert Last(t) == world(trace, Down(started[n]));
      StopIsCaught(world, t, started[..n], if Last(t).Raised? then failures + [started[n]] else failures);
    }
  }

  lemma {:induction false} CollectIsCaught(world: World, trace: Trace, wanted: seq<Command>)
    requires CleanupIsCaught(world)
    requires forall i :: 0 <= i < |wanted| ==> wanted[i] == MakeDirectory || wanted[i] == ListContainers || wanted[i].Logs?
    ensures Collect(world, trace, wanted).interrupted == None
    decreases |wanted|
  {
    if wanted != [] {
      var t := Do(world, trace, wanted[0]);
      assert Last(t) == world(trace, wanted[0]);
      CollectIsCaught(world, t, wanted[1..]);
    }
  }

  /** When cleanup fails only in the caught classes, no run is interrupted: the
      guarantees for uninterrupted runs are then guarantees for all runs. */
  lemma CaughtCleanupNeverInterrupts(world: World, files: seq<File>, diagnose: bool, keep: bool)
    requires CleanupIsCaught(world)
    ensures Whole(world, files, diagnose, keep).interrupted == None
  {
    var t := Do(world, [], Preflight);
    if Last(t).Returned? {
      var a := Attempt(world, t, Last(t).value, files);
      CollectIsCaught(world, a.trace, Diagnostics(a.started));
      StopIsCaught(world, BeforeCleanup(world, a, diagnose).trace, a.started, []);
    }
  }

  /** The run ends with a `down` of every started file, last started first. */
  predicate EndsWithDowns(run: Run)
  {
    var n := |run.trace| - |run.started|;
    n >= 0 && Commands(run.trace)[n..] == Downs(run.started)
  }

  lemma FinishEndsWithDowns(world: World, a: Attempted, diagnose: bool)
    requires Finish(world, a, diagnose, false).interrupted == None
    ensures EndsWithDowns(Finish(world, a, diagnose, false))
  {
    StopCommands(world, BeforeCleanup(world, a, diagnose).trace, a.started, []);
  }

  /** Without `keep`, on every exit cleanup was not interrupted from, the run ends
      with a `down` of every started file, in reverse start order, and what
      was started is a prefix of what was asked for. */
  lemma CleanupOnEveryExit(world: World, files: seq<File>, diagnose: bool)
    ensures var run := Whole(world, files, diagnose, false);
            run.started <= files && (run.interrupted == None ==> EndsWithDowns(run))
  {
    WholeShape(world, files, diagnose, false);
    var t := Do(world, [], Preflight);
    var run := Whole(world, files, diagnose, false);
    if Last(t).Returned? && run.interrupted == None {
      FinishEndsWithDowns(world, Attempt(world, t, Last(t).value, files), diagnose);
    }
  }

  /** The exact commands of a green run. */
  function GreenCommands(files: seq<File>, keep: bool): seq<Command>
  {
    [Preflight] + StartCommands(files) + [Measure, Preflight] + (if keep then [] else Downs(files))
  }

  lemma ConcludeGreen(world: World, a: Attempted, keep: bool)
    requires a.result.Some? && AllReturned(a.trace) && Conclude(world, a, keep).exit.Value?
    ensures var run := Conclude(world, a, keep);
            && AllReturned(run.trace) && a.trace <= run.trace && run.exit.value == a.result.value
            && Commands(run.trace) == Commands(a.trace) + (if keep then [] else Downs(a.started))
  {
    if keep {
      assert Commands(a.trace) + [] == Commands(a.trace);
    } else {
      StopExtends(world, a.trace, a.started, []);
      StopCommands(world, a.trace, a.started, []);
    }
  }

  /** A green run: every step succeeded, the commands are exactly the prescribed
      ones, the value is the measured one and the two snapshots agree. */
  predicate Green(run: Run, files: seq<File>, keep: bool)
  {
    && AllReturned(run.trace)
    && Commands(run.trace) == GreenCommands(files, keep)
    && var m := 1 + |StartCommands(files)|;
    && m + 1 < |run.trace|
    && run.exit == Value(run.trace[m].reply.value)
    && run.trace[m + 1].reply == run.trace[0].reply
  }

  /** A value is returned only by a green run. */
  lemma ValueMeansGreen(world: World, files: seq<File>, diagnose: bool, keep: bool)
    requires Whole(world, files, diagnose, keep).exit.Value?
    ensures Green(Whole(world, files, diagnose, keep), files, keep)
  {
    FirstStep(world);
    var t := Do(world, [], Preflight);
    AttemptShape(world, t, Last(t).value, files);
    AttemptSucceeded(world, t, Last(t).value, files);
    var a := Attempt(world, t, Last(t).value, files);
    ConcludeGreen(world, a, keep);
    GreenParts(t, a, Conclude(world, a, keep), files, keep);
  }

  lemma GreenParts(t: Trace, a: Attempted, run: Run, files: seq<File>, keep: bool)
    requires |t| == 1 && t[0].command == Preflight && t <= a.trace && Commands(t) == [Preflight]
    requires Commands(a.trace) == Commands(t) + StartCommands(files) + [Measure, Preflight]
    requires a.result.Some? && a.started == files
    requires a.trace[|a.trace| - 2].reply == Returned(a.result.value) && Last(a.trace) == Last(t)
    requires AllReturned(run.trace) && a.trace <= run.trace && run.exit == Value(a.result.value)
    requires Commands(run.trace) == Commands(a.trace) + (if keep then [] else Downs(files))
    ensures Green(run, files, keep)
  {
    var m := 1 + |StartCommands(files)|;
    assert |a.trace| == |Commands(a.trace)| == m + 2;
    assert run.trace[m] == a.trace[m] && run.trace[m + 1] == a.trace[m + 1];
    assert run.trace[0] == a.trace[0] == t[0];
  }

  lemma FinishWithoutFailure(world: World, a: Attempted, diagnose: bool, keep: bool)
    requires DownBeforeUp(a.trace) && AllReturned(Finish(world, a, diagnose, keep).trace)
    requires a.result == None ==> a.reason == RepositoryMoved || (a.trace != [] && Last(a.trace).Raised?)
    ensures var run := Finish(world, a, diagnose, keep);
            run.exit.Value? || run.exit == Error(RepositoryMoved)
  {
    var run := Finish(world, a, diagnose, keep);
    FinishShape(world, a, diagnose, keep);
    assert run.interrupted == None;
    PrefixReturned(a.trace, run.trace);
    if a.result.Some? && !keep { StopCommands(world, a.trace, a.started, []); }
  }

  /** Conversely, a run without any failed step returns a value unless the repository moved. */
  lemma NoFailureMeansValue(world: World, files: seq<File>, diagnose: bool, keep: bool)
    requires AllReturned(Whole(world, files, diagnose, keep).trace)
    ensures var run := Whole(world, files, diagnose, keep);
            run.exit.Value? || run.exit == Error(RepositoryMoved)
  {
    FirstStep(world);
    WholeShape(world, files, diagnose, keep);
    var t := Do(world, [], Preflight);
    if Last(t).Returned? {
      AttemptShape(world, t, Last(t).value, files);
      FinishWithoutFailure(world, Attempt(world, t, Last(t).value, files), diagnose, keep);
    }
  }

  /** Files whose final `down` failed. */
  function LeftUp(run: Run): set<File>
    requires |run.started| <= |run.trace|
  {
    var tail := run.trace[|run.trace| - |run.started|..];
    set e | e in tail && e.command.Down? && e.reply.Raised? :: e.command.file
  }

  lemma StillUp(run: Run, from: nat, f: File)
    requires from == |run.trace| - |run.started|
    requires exists i :: from <= i < |run.trace| && run.trace[i].command == Down(f) && run.trace[i].reply.Raised?
    ensures f in LeftUp(run)
  {
    var i :| from <= i < |run.trace| && run.trace[i].command == Down(f) && run.trace[i].reply.Raised?;
    assert run.trace[from..][i - from] == run.trace[i];
    assert run.trace[i] in run.trace[from..];
  }

  lemma FinishLeaves(world: World, a: Attempted, diagnose: bool)
    requires DownBeforeUp(a.trace) && (forall x :: x in Running(a.trace) ==> x in a.started)
    requires Finish(world, a, diagnose, false).interrupted == None
    ensures var run := Finish(world, a, diagnose, false);
            |run.started| <= |run.trace| && Running(run.trace) <= LeftUp(run)
  {
    var run := Finish(world, a, diagnose, false);
    var d := BeforeCleanup(world, a, diagnose);
    BeforeCleanupShape(world, a, diagnose);
    StopCommands(world, d.trace, a.started, []);
    StopAddsNothing(world, d.trace, a.started, []);
    assert |Commands(run.trace)| == |Commands(d.trace)| + |a.started|;
    forall f | f in Running(run.trace) ensures f in LeftUp(run) {
      StopRunning(world, d.trace, a.started, [], f);
      StillUp(run, |d.trace|, f);
    }
  }

  /** Nothing stays up behind an uninterrupted run without `keep`, except the
      files whose final `down` failed. */
  lemma NothingLeftRunning(world: World, files: seq<File>, diagnose: bool)
    ensures var run := Whole(world, files, diagnose, false);
            run.interrupted == None ==> |run.started| <= |run.trace| && Running(run.trace) <= LeftUp(run)
  {
    FirstStep(world);
    WholeShape(world, files, diagnose, false);
    var t := Do(world, [], Preflight);
    if Last(t).Returned? && Whole(world, files, diagnose, false).interrupted == None {
      AttemptShape(world, t, Last(t).value, files);
      AttemptRunning(world, t, Last(t).value, files);
      FinishLeaves(world, Attempt(world, t, Last(t).value, files), diagnose);
    }
  }

  /** A green run leaves nothing up. */
  lemma GreenRunLeavesNothing(world: World, files: seq<File>, diagnose: bool)
    requires Whole(world, files, diagnose, false).exit.Value?
    ensures Running(Whole(world, files, diagnose, false).trace) == {}
  {
    NothingLeftRunning(world, files, diagnose);
    InterruptionIsUncaught(world, files, diagnose, false);
    ValueMeansGreen(world, files, diagnose, false);
    NobodyLeft(Whole(world, files, diagnose, false));
  }

  lemma NobodyLeft(run: Run)
    requires |run.started| <= |run.trace| && AllReturned(run.trace)
    ensures LeftUp(run) == {}
  {
    var tail := run.trace[|run.trace| - |run.started|..];
    forall e | e in tail ensures e.reply.Returned? { assert e in run.trace; }
  }

  // ----- which files count as started -----

  /** The files whose `config` succeeded, in the order of the events. */
  function Configured(trace: Trace): seq<File>
  {
    if trace == [] then [] else
    var n := |trace| - 1;
    Configured(trace[..n]) + if trace[n].command.Config? && trace[n].reply.Returned? then [trace[n].command.file] else []
  }

  lemma DoConfigured(world: World, trace: Trace, c: Command)
    ensures var t := Do(world, trace, c);
            Configured(t) == Configured(trace) + if c.Config? && Last(t).Returned? then [c.file] else []
  {
    var t := Do(world, trace, c);
    assert t[..|t| - 1] == trace;
  }

  lemma NotConfigured(world: World, trace: Trace, c: Command)
    requires !c.Config?
    ensures Configured(Do(world, trace, c)) == Configured(trace)
  {
    DoConfigured(world, trace, c);
    assert Configured(trace) + [] == Configured(trace);
  }

  lemma {:induction false} StartConfigures(world: World, trace: Trace, files: seq<File>, started: seq<File>)
    requires Configured(trace) == started
    ensures var s := Start(world, trace, files, started); Configured(s.trace) == s.started
    decreases |files|
  {
    if files != [] {
      var f := files[0];
      var t1 := Do(world, trace, Config(f));
      var t2 := Do(world, t1, Down(f));
      DoConfigured(world, trace, Config(f));
      assert started + [] == started;
      NotConfigured(world, t1, Down(f));
      NotConfigured(world, t2, Up(f));
      if Last(t1).Returned? && Last(t2).Returned? && Last(Do(world, t2, Up(f))).Returned? {
        StartConfigures(world, Do(world, t2, Up(f)), files[1..], started + [f]);
      }
    }
  }

  lemma {:induction false} StopConfigures(world: World, trace: Trace, started: seq<File>, failures: seq<File>)
    ensures Configured(Stop(world, trace, started, failures).trace) == Configured(trace)
    decreases |started|
  {
    if started != [] {
      var n := |started| - 1;
      var t := Do(world, trace, Down(started[n]));
      NotConfigured(world, trace, Down(started[n]));
      StopConfigures(world, t, started[..n], if Last(t).Raised? then failures + [started[n]] else failures);
    }
  }

  lemma {:induction false} CollectConfigures(world: World, trace: Trace, wanted: seq<Command>)
    requires forall i :: 0 <= i < |wanted| ==> !wanted[i].Config?
    ensures Configured(Collect(world, trace, wanted).trace) == Configured(trace)
    decreases |wanted|
  {
    if wanted != [] {
      NotConfigured(world, trace, wanted[0]);
      CollectConfigures(world, Do(world, trace, wanted[0]), wanted[1..]);
    }
  }

  lemma AttemptConfigures(world: World, trace: Trace, at: string, files: seq<File>)
    requires Configured(trace) == []
    ensures var a := Attempt(world, trace, at, files); Configured(a.trace) == a.started
  {
    var s := Start(world, trace, files, []);
    StartConfigures(world, trace, files, []);
    NotConfigured(world, s.trace, Measure);
    NotConfigured(world, Do(world, s.trace, Measure), Preflight);
  }

  lemma FinishConfigures(world: World, a: Attempted, diagnose: bool, keep: bool)
    ensures var run := Finish(world, a, diagnose, keep);
            run.started == a.started && Configured(run.trace) == Configured(a.trace)
  {
    hide Configured, Collect, Stop;
    CollectConfigures(world, a.trace, Diagnostics(a.started));
    StopConfigures(world, BeforeCleanup(world, a, diagnose).trace, a.started, []);
  }

  /** In every run exactly the files whose `config` succeeded count as started,
      in order, whatever became of their `down` and `up`. */
  lemma StartedIsConfigured(world: World, files: seq<File>, diagnose: bool, keep: bool)
    ensures var run := Whole(world, files, diagnose, keep); run.started == Configured(run.trace)
  {
    var t := Do(world, [], Preflight);
    NotConfigured(world, [], Preflight);
    if Last(t).Returned? {
      AttemptConfigures(world, t, Last(t).value, files);
      FinishConfigures(world, Attempt(world, t, Last(t).value, files), diagnose, keep);
    }
  }
}
