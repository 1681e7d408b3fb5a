/** The cleanup part of a campaign, event by event: exactly when every started
    file gets its `down`, and exactly what is left up. */
module CampaignCleanup {
  import opened Text
  import opened Campaign
  import opened CampaignSafety

  /** The state of a run without `keep` in which cleanup starts, `interrupted`
      if diagnostics never let it start. */
  function AtCleanup(world: World, files: seq<File>, diagnose: bool): Stopped
  {
    var t := Do(world, [], Preflight);
    if Last(t).Raised? then Stopped(t, [], None)
    else BeforeCleanup(world, Attempt(world, t, Last(t).value, files), diagnose)
  }

  /** The events of the cleanup loop. */
  function CleanupPart(world: World, files: seq<File>, diagnose: bool): Trace
  {
    var d, run := AtCleanup(world, files, diagnose), Whole(world, files, diagnose, false);
    if |d.trace| <= |run.trace| then run.trace[|d.trace|..] else []
  }

  predicate Uncaught(e: Event)
  {
    e.reply.Raised? && !e.reply.failure.caught
  }

  /** What the cleanup loop over `started` adds: a `down` for each file, last
      first, up to and including the first uncaught failure. */
  ghost predicate LoopEvents(started: seq<File>, part: Trace, interrupted: bool)
  {
    && Commands(part) <= Downs(started)
    && (forall k :: 0 <= k < |part| - 1 ==> !Uncaught(part[k]))
    && (interrupted <==> part != [] && Uncaught(part[|part| - 1]))
    && (!interrupted ==> |part| == |started|)
  }

  /** One turn of the cleanup loop. */
  lemma StopTurn(world: World, trace: Trace, started: seq<File>, failures: seq<File>)
    returns (t: Trace, e: Event, more: seq<File>)
    requires started != []
    ensures var n := |started| - 1;
            && t == Do(world, trace, Down(started[n])) && t == trace + [e] && e.command == Down(started[n])
            && if Uncaught(e) then Stop(world, trace, started, failures) == Stopped(t, failures, Some(e.reply.failure))
               else Stop(world, trace, started, failures) == Stop(world, t, started[..n], more)
  {
    var n := |started| - 1;
    t := Do(world, trace, Down(started[n]));
    e := t[|trace|];
    more := if Last(t).Raised? then failures + [started[n]] else failures;
  }

  lemma PartCons(trace: Trace, e: Event, all: Trace)
    requires trace + [e] <= all
    ensures trace <= all && all[|trace|..] == [e] + all[|trace| + 1..]
  {
    assert all[|trace|] == (trace + [e])[|trace|];
  }

  lemma {:induction false} StopEvents(world: World, trace: Trace, started: seq<File>, failures: seq<File>)
    ensures var s := Stop(world, trace, started, failures);
            trace <= s.trace && LoopEvents(started, s.trace[|trace|..], s.interrupted.Some?)
    decreases |started|
  {
    if started == [] {
      assert trace[|trace|..] == [];
    } else {
      var t, e, more := StopTurn(world, trace, started, failures);
      if Uncaught(e) {
        assert t[|trace|..] == [e];
        LastEvent(started, e);
      } else {
        StopEvents(world, t, started[..|started| - 1], more);
        var s := Stop(world, t, started[..|started| - 1], more);
        EventsCons(started, e, s.trace[|t|..], s.interrupted.Some?);
        PartCons(trace, e, s.trace);
      }
    }
  }

  lemma LastEvent(started: seq<File>, e: Event)
    requires started != [] && e.command == Down(started[|started| - 1]) && Uncaught(e)
    ensures LoopEvents(started, [e], true)
  {
    assert Commands([e]) == [e.command];
  }

  lemma EventsCons(started: seq<File>, e: Event, rest: Trace, interrupted: bool)
    requires started != [] && e.command == Down(started[|started| - 1]) && !Uncaught(e)
    requires LoopEvents(started[..|started| - 1], rest, interrupted)
    ensures LoopEvents(started, [e] + rest, interrupted)
  {
    var part := [e] + rest;
    assert Commands(part) == [e.command] + Commands(rest);
    forall k | 0 <= k < |part| - 1 ensures !Uncaught(part[k]) {
      if k > 0 { assert part[k] == rest[k - 1]; }
    }
    if rest == [] { assert part == [e]; } else { assert part[|part| - 1] == rest[|rest| - 1]; }
  }

  /** A run without `keep` whose preflight succeeded ends with cleanup, unless diagnostics were interrupted. */
  lemma EndsWithCleanup(world: World, files: seq<File>, diagnose: bool)
    requires Last(Do(world, [], Preflight)).Returned?
    ensures var d, run := AtCleanup(world, files, diagnose), Whole(world, files, diagnose, false);
            var s := Stop(world, d.trace, run.started, []);
            if d.interrupted.Some? then run.trace == d.trace && run.interrupted == d.interrupted
            else run.trace == s.trace && run.interrupted == s.interrupted
  {
    var t := Do(world, [], Preflight);
    var a := Attempt(world, t, Last(t).value, files);
    FinishCleans(world, a, diagnose);
  }

  lemma FinishCleans(world: World, a: Attempted, diagnose: bool)
    ensures var d, run := BeforeCleanup(world, a, diagnose), Finish(world, a, diagnose, false);
            var s := Stop(world, d.trace, a.started, []);
            && run.started == a.started
            && if d.interrupted.Some? then run.trace == d.trace && run.interrupted == d.interrupted
               else run.trace == s.trace && run.interrupted == s.interrupted
  {}

  lemma PartOf(world: World, files: seq<File>, diagnose: bool)
    ensures var d, run := AtCleanup(world, files, diagnose), Whole(world, files, diagnose, false);
            && d.trace <= run.trace
            && (d.interrupted.Some? ==> run.trace == d.trace && run.interrupted == d.interrupted)
            && (d.interrupted == None ==> LoopEvents(run.started, run.trace[|d.trace|..], run.interrupted.Some?))
  {
    var t := Do(world, [], Preflight);
    var d, run := AtCleanup(world, files, diagnose), Whole(world, files, diagnose, false);
    if Last(t).Raised? {
      assert run.trace[|d.trace|..] == [];
    } else {
      EndsWithCleanup(world, files, diagnose);
      StopEvents(world, d.trace, run.started, []);
    }
  }

  /** Diagnostics let cleanup start, and a failure of cleanup outside the caught
      classes, if there is one, is that of its last `down`. */
  ghost predicate InterruptedLateOrNever(world: World, files: seq<File>, diagnose: bool)
  {
    var part, started := CleanupPart(world, files, diagnose), Whole(world, files, diagnose, false).started;
    && AtCleanup(world, files, diagnose).interrupted == None
    && forall k :: 0 <= k < |part| && Uncaught(part[k]) ==> k == |started| - 1
  }

  /** For every run without `keep`: cleanup issues the `down`s of the started
      files in reverse start order, and issues all of them if and only if
      nothing was started, or it was not interrupted before the last one. */
  lemma EveryStartedIsStoppedExactly(world: World, files: seq<File>, diagnose: bool)
    ensures var part, started := CleanupPart(world, files, diagnose), Whole(world, files, diagnose, false).started;
            && Commands(part) <= Downs(started)
            && (Commands(part) == Downs(started) <==> started == [] || InterruptedLateOrNever(world, files, diagnose))
  {
    PartOf(world, files, diagnose);
    var part, run := CleanupPart(world, files, diagnose), Whole(world, files, diagnose, false);
    if AtCleanup(world, files, diagnose).interrupted.Some? {
      assert part == [];
      assert |Downs(run.started)| == |run.started|;
    } else {
      LoopExactly(run.started, part, run.interrupted.Some?);
    }
  }

  lemma LoopExactly(started: seq<File>, part: Trace, interrupted: bool)
    requires LoopEvents(started, part, interrupted)
    ensures Commands(part) == Downs(started) <==> forall k :: 0 <= k < |part| && Uncaught(part[k]) ==> k == |started| - 1
  {
    assert |Commands(part)| == |part| && |Downs(started)| == |started|;
    if interrupted { assert Uncaught(part[|part| - 1]); }
  }

  // ----- what is left up -----

  /** Files with a successful `down` among the events. */
  function TakenDown(part: Trace): set<File>
  {
    set e | e in part && e.command.Down? && e.reply.Returned? :: e.command.file
  }

  lemma TakenDownCons(e: Event, rest: Trace)
    ensures TakenDown([e] + rest)
         == (if e.command.Down? && e.reply.Returned? then {e.command.file} else {}) + TakenDown(rest)
  {
    var part := [e] + rest;
    forall x ensures x in part <==> x == e || x in rest {
      if x in rest { var i :| 0 <= i < |rest| && rest[i] == x; assert part[i + 1] == x; }
      if x == e { assert part[0] == x; }
    }
  }

  lemma DownRuns(world: World, trace: Trace, e: Event)
    requires e.command.Down? && Do(world, trace, e.command) == trace + [e]
    ensures Running(trace + [e]) == Running(trace) - TakenDown([e])
    ensures TakenDown([e]) == if e.reply.Returned? then {e.command.file} else {}
  {
    DoRunning(world, trace, e.command);
    assert (trace + [e])[|trace|] == e;
    TakenDownCons(e, []);
    assert [e] + [] == [e];
  }

  lemma {:induction false} StopTakesDown(world: World, trace: Trace, started: seq<File>, failures: seq<File>)
    ensures var s := Stop(world, trace, started, failures);
            trace <= s.trace && Running(s.trace) == Running(trace) - TakenDown(s.trace[|trace|..])
    decreases |started|
  {
    if started == [] {
      assert trace[|trace|..] == [];
    } else {
      var t, e, more := StopTurn(world, trace, started, failures);
      DownRuns(world, trace, e);
      if Uncaught(e) {
        assert t[|trace|..] == [e];
      } else {
        StopTakesDown(world, t, started[..|started| - 1], more);
        var s := Stop(world, t, started[..|started| - 1], more);
        PartCons(trace, e, s.trace);
        TakenDownCons(e, s.trace[|t|..]);
      }
    }
  }

  /** Files whose `up` was issued. */
  function Upped(trace: Trace): set<File>
  {
    set e | e in trace && e.command.Up? :: e.command.file
  }

  lemma DoUpped(world: World, trace: Trace, c: Command)
    ensures Upped(Do(world, trace, c)) == Upped(trace) + if c.Up? then {c.file} else {}
  {
    var e := Event(c, world(trace, c));
    var t := Do(world, trace, c);
    forall x ensures x in t <==> x in trace || x == e {
      if x in trace { var i :| 0 <= i < |trace| && trace[i] == x; assert t[i] == x; }
      if x == e { assert t[|trace|] == x; }
    }
  }

  /** The files that may be up are those whose `up` was issued. */
  predicate UpIsUpped(trace: Trace)
  {
    Running(trace) == Upped(trace)
  }

  lemma NeutralUps(world: World, trace: Trace, c: Command)
    requires UpIsUpped(trace) && !c.Up? && !c.Down?
    ensures UpIsUpped(Do(world, trace, c))
  {
    DoRunning(world, trace, c);
    DoUpped(world, trace, c);
  }

  /** A `down` and then an `up` of a file leave it up. */
  lemma TurnUps(world: World, t: Trace, f: File)
    requires UpIsUpped(t)
    ensures var t2 := Do(world, t, Down(f));
            if Last(t2).Raised? then UpIsUpped(t2) else UpIsUpped(Do(world, t2, Up(f)))
  {
    var t2 := Do(world, t, Down(f));
    DoRunning(world, t, Down(f));
    DoUpped(world, t, Down(f));
    DoRunning(world, t2, Up(f));
    DoUpped(world, t2, Up(f));
  }

  lemma {:induction false} StartUps(world: World, trace: Trace, files: seq<File>, started: seq<File>)
    requires UpIsUpped(trace)
    ensures UpIsUpped(Start(world, trace, files, started).trace)
    decreases |files|
  {
    if files != [] {
      var f := files[0];
      var t1 := Do(world, trace, Config(f));
      var t2 := Do(world, t1, Down(f));
      var t3 := Do(world, t2, Up(f));
      NeutralUps(world, trace, Config(f));
      TurnUps(world, t1, f);
      if Last(t1).Returned? && Last(t2).Returned? && Last(t3).Returned? { StartUps(world, t3, files[1..], started + [f]); }
    }
  }

  lemma {:induction false} CollectUps(world: World, trace: Trace, wanted: seq<Command>)
    requires UpIsUpped(trace) && forall i :: 0 <= i < |wanted| ==> !wanted[i].Up? && !wanted[i].Down?
    ensures UpIsUpped(Collect(world, trace, wanted).trace)
    decreases |wanted|
  {
    if wanted != [] {
      NeutralUps(world, trace, wanted[0]);
      CollectUps(world, Do(world, trace, wanted[0]), wanted[1..]);
    }
  }

  lemma AttemptUps(world: World, trace: Trace, at: string, files: seq<File>)
    requires UpIsUpped(trace)
    ensures UpIsUpped(Attempt(world, trace, at, files).trace)
  {
    var s := Start(world, trace, files, []);
    StartUps(world, trace, files, []);
    NeutralUps(world, s.trace, Measure);
    NeutralUps(world, Do(world, s.trace, Measure), Preflight);
  }

  /** Cleanup takes down what it takes down successfully, and starts nothing. */
  lemma CleanupTakesDown(world: World, files: seq<File>, diagnose: bool)
    ensures Running(Whole(world, files, diagnose, false).trace)
         == Running(AtCleanup(world, files, diagnose).trace) - TakenDown(CleanupPart(world, files, diagnose))
  {
    var t := Do(world, [], Preflight);
    var d, run := AtCleanup(world, files, diagnose), Whole(world, files, diagnose, false);
    if Last(t).Returned? {
      EndsWithCleanup(world, files, diagnose);
      StopTakesDown(world, d.trace, run.started, []);
    }
    if d.interrupted.Some? || Last(t).Raised? {
      assert run.trace[|d.trace|..] == [];
      assert TakenDown([]) == {};
    }
  }

  /** For every run without `keep`, interrupted or not: a file is left up exactly
      if its `up` was issued, which happens to started files only, and cleanup
      did not take it down successfully. */
  lemma LeftUpExactly(world: World, files: seq<File>, diagnose: bool)
    ensures var d, run := AtCleanup(world, files, diagnose), Whole(world, files, diagnose, false);
            && (forall f :: f in Upped(d.trace) ==> f in run.started)
            && Running(run.trace) == Upped(d.trace) - TakenDown(CleanupPart(world, files, diagnose))
  {
    UpsAtCleanup(world, files, diagnose);
    OnlyStartedUp(world, files, diagnose);
    CleanupTakesDown(world, files, diagnose);
  }

  lemma DiagnosticsUps(world: World, a: Attempted, diagnose: bool)
    requires UpIsUpped(a.trace)
    ensures UpIsUpped(BeforeCleanup(world, a, diagnose).trace)
  {
    if a.result == None && diagnose { CollectUps(world, a.trace, Diagnostics(a.started)); }
  }

  lemma UpsAtCleanup(world: World, files: seq<File>, diagnose: bool)
    ensures UpIsUpped(AtCleanup(world, files, diagnose).trace)
  {
    NeutralUps(world, [], Preflight);
    var t := Do(world, [], Preflight);
    if Last(t).Returned? {
      AttemptUps(world, t, Last(t).value, files);
      DiagnosticsUps(world, Attempt(world, t, Last(t).value, files), diagnose);
    }
  }

  lemma OnlyStartedUp(world: World, files: seq<File>, diagnose: bool)
    ensures forall f :: f in Running(AtCleanup(world, files, diagnose).trace) ==> f in Whole(world, files, diagnose, false).started
  {
    FirstStep(world);
    var t := Do(world, [], Preflight);
    if Last(t).Returned? {
      var a := Attempt(world, t, Last(t).value, files);
      AttemptShape(world, t, Last(t).value, files);
      AttemptRunning(world, t, Last(t).value, files);
      BeforeCleanupShape(world, a, diagnose);
      FinishCleans(world, a, diagnose);
    }
  }

  // ----- a run that leaves a fixture behind -----

  /** Everything succeeds, except that after the measurement `down` of `file`
      fails outside the caught classes. */
  function Unlucky(file: File): World
  {
    (trace: Trace, c: Command) =>
      if c == Down(file) && Event(Measure, Returned("")) in trace then Raised(Failure(false, "")) else Returned("")
  }

  lemma UnluckyTurn(file: File, trace: Trace, files: seq<File>, started: seq<File>) returns (t3: Trace)
    requires files != [] && Event(Measure, Returned("")) !in trace
    ensures Start(Unlucky(file), trace, files, started) == Start(Unlucky(file), t3, files[1..], started + [files[0]])
    ensures Event(Measure, Returned("")) !in t3 && Running(t3) == Running(trace) + {files[0]}
  {
    var w, f := Unlucky(file), files[0];
    var t1 := Do(w, trace, Config(f));
    var t2 := Do(w, t1, Down(f));
    t3 := Do(w, t2, Up(f));
    UnluckyDo(file, trace, Config(f));
    UnluckyDo(file, t1, Down(f));
    UnluckyDo(file, t2, Up(f));
  }

  /** Before the measurement every step succeeds. */
  lemma UnluckyDo(file: File, trace: Trace, c: Command)
    requires Event(Measure, Returned("")) !in trace && c != Measure
    ensures var t := Do(Unlucky(file), trace, c);
            && Last(t) == Returned("") && Event(Measure, Returned("")) !in t
            && Running(t) == After(Running(trace), Event(c, Returned("")))
  {
    DoRunning(Unlucky(file), trace, c);
  }

  function FileSet(files: seq<File>): set<File>
  {
    set f | f in files
  }

  lemma FilesCons(files: seq<File>)
    requires files != []
    ensures files == [files[0]] + files[1..] && FileSet(files) == {files[0]} + FileSet(files[1..])
  {
    assert files == [files[0]] + files[1..];
  }

  lemma {:induction false} UnluckyStart(file: File, trace: Trace, files: seq<File>, started: seq<File>)
    requires Event(Measure, Returned("")) !in trace
    ensures var s := Start(Unlucky(file), trace, files, started);
            && s.failure == None && s.started == started + files && Event(Measure, Returned("")) !in s.trace
            && Running(s.trace) == Running(trace) + FileSet(files)
    decreases |files|
  {
    if files == [] {
      assert started + files == started;
    } else {
      var t3 := UnluckyTurn(file, trace, files, started);
      UnluckyStart(file, t3, files[1..], started + [files[0]]);
      Assoc(started, [files[0]], files[1..]);
      FilesCons(files);
    }
  }

  /** The attempt itself succeeds, with every file up and the measurement on record. */
  lemma UnluckyAttempt(file: File, files: seq<File>)
    ensures var t := Do(Unlucky(file), [], Preflight);
            var a := Attempt(Unlucky(file), t, "", files);
            && Last(t) == Returned("")
            && a.result == Some("") && a.started == files && Event(Measure, Returned("")) in a.trace
            && (forall f :: f in files ==> f in Running(a.trace))
  {
    var w := Unlucky(file);
    var t := Do(w, [], Preflight);
    UnluckyStart(file, t, files, []);
    var s := Start(w, t, files, []);
    assert [] + files == files;
    var t1 := Do(w, s.trace, Measure);
    MeasureRunning(w, s, "");
    assert t1[|s.trace|] == Event(Measure, Returned(""));
    assert Do(w, t1, Preflight)[|s.trace|] == Event(Measure, Returned(""));
  }

  /** Two fixtures: the second cannot be stopped, and the first, started and
      never stopped, is left up without a final `down`. */
  lemma InterruptedCleanupLeavesFixture(a: File, b: File)
    requires a != b
    ensures var run := Whole(Unlucky(b), [a, b], false, false);
            && run.started == [a, b] && a in Running(run.trace)
            && Commands(CleanupPart(Unlucky(b), [a, b], false)) == [Down(b)]
            && run.exit == Error(Step(Failure(false, "")))
  {
    var w, files := Unlucky(b), [a, b];
    UnluckyAttempt(b, files);
    var before := Attempt(w, Do(w, [], Preflight), "", files);
    var t, e, more := StopTurn(w, before.trace, files, []);
    assert t[|before.trace|..] == [e];
    assert Commands([e]) == [Down(b)];
    DoRunning(w, before.trace, Down(b));
    assert a in files;
  }

  /** An interruption at the last `down` comes too late to matter: every started file still got its `down`. */
  lemma LateInterruptionIsComplete(a: File, b: File)
    requires a != b
    ensures var run := Whole(Unlucky(a), [a, b], false, false);
            run.interrupted.Some? && Commands(CleanupPart(Unlucky(a), [a, b], false)) == Downs(run.started)
  {
    var w, files := Unlucky(a), [a, b];
    UnluckyAttempt(a, files);
    var before := Attempt(w, Do(w, [], Preflight), "", files).trace;
    var t, e, more := StopTurn(w, before, files, []);
    assert files[..1] == [a];
    var u, last, none := StopTurn(w, t, [a], more);
    assert u[|before|..] == [e, last];
    assert Commands([e, last]) == [Down(b), Down(a)];
    assert [a][..0] == [] && Downs([a]) == [Down(a)] && Downs(files) == [Down(b)] + Downs([a]);
  }
}
