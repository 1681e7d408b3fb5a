/** Why a run of a campaign ended as it did, read off its trace alone. */
module CampaignErrors {
  import opened Text
  import opened Campaign
  import opened CampaignSafety

  /** The commands of an attempt nothing stops. */
  function AttemptCommands(files: seq<File>): seq<Command>
  {
    [Preflight] + StartCommands(files) + [Measure, Preflight]
  }

  /** The commands that follow an attempt that failed. */
  function RecoveryCommands(started: seq<File>, diagnose: bool, keep: bool): seq<Command>
  {
    (if diagnose then Diagnostics(started) else []) + (if keep then [] else Downs(started))
  }

  lemma {:induction false} DownsAreReversed(started: seq<File>, j: nat)
    requires j < |started|
    ensures Downs(started)[j] == Down(started[|started| - 1 - j])
    decreases |started|
  {
    if j > 0 { DownsAreReversed(started[..|started| - 1], j - 1); }
  }

  /** After a failed attempt, place by place: the directory, the containers and
      the logs of the started files in order, if wanted; then, unless the
      fixtures are kept, a `down` for each of them from the last to the first. */
  lemma RecoveryInOrder(started: seq<File>, diagnose: bool, keep: bool, k: nat)
    requires k < |started|
    ensures var cs := RecoveryCommands(started, diagnose, keep);
            var m := if diagnose then 2 + |started| else 0;
            && |cs| == m + (if keep then 0 else |started|)
            && (diagnose ==> cs[0] == MakeDirectory && cs[1] == ListContainers && cs[2 + k] == Logs(started[k]))
            && (!keep ==> cs[m + k] == Down(started[|started| - 1 - k]))
  {
    DownsAreReversed(started, k);
    hide Downs;
  }

  /** The attempt ended with event `i`, the first that could fail it: what came
      before succeeded and is part of the attempt, what follows is all of
      diagnostics and cleanup, and nothing if nothing was attempted. */
  predicate EndedAt(run: Run, files: seq<File>, diagnose: bool, keep: bool, i: nat)
  {
    && i < |run.trace| && AllReturned(run.trace[..i])
    && Commands(run.trace[..i + 1]) <= AttemptCommands(files)
    && Commands(run.trace[i + 1..]) == if i == 0 then [] else RecoveryCommands(run.started, diagnose, keep)
  }

  /** The attempt ended with a step that failed with `f`. */
  predicate FailedStep(run: Run, files: seq<File>, diagnose: bool, keep: bool, f: Failure)
  {
    exists i :: 0 <= i < |run.trace| && EndedAt(run, files, diagnose, keep, i) && run.trace[i].reply == Raised(f)
  }

  /** The attempt ended with a postflight that saw another snapshot than the preflight. */
  predicate Moved(run: Run, files: seq<File>, diagnose: bool, keep: bool)
  {
    exists i :: 0 < i < |run.trace| && EndedAt(run, files, diagnose, keep, i) && run.trace[i].command == Preflight
                && run.trace[i].reply.Returned? && run.trace[i].reply != run.trace[0].reply
  }

  /** The files whose `down` failed, in the order of the events. */
  function FailedDowns(trace: Trace): seq<File>
  {
    if trace == [] then []
    else (if trace[0].command.Down? && trace[0].reply.Raised? then [trace[0].command.file] else [])
         + FailedDowns(trace[1..])
  }

  /** The prescribed commands, all successful up to cleanup, which failed on exactly `failed`. */
  predicate OnlyCleanupFailed(trace: Trace, files: seq<File>, failed: seq<File>)
  {
    var n := |trace| - |files|;
    && n >= 0 && Commands(trace) == GreenCommands(files, false) && AllReturned(trace[..n])
    && failed != [] && failed == FailedDowns(trace[n..])
  }

  // ----- the steps -----

  /** Everything but the last event of `trace` succeeded, and that one failed with `f`. */
  predicate EndsWith(trace: Trace, f: Failure)
  {
    trace != [] && Last(trace) == Raised(f) && AllReturned(trace[..|trace| - 1])
  }

  lemma DoFails(world: World, trace: Trace, c: Command)
    requires AllReturned(trace) && Last(Do(world, trace, c)).Raised?
    ensures EndsWith(Do(world, trace, c), Last(Do(world, trace, c)).failure)
  {
    var t := Do(world, trace, c);
    assert t[..|t| - 1] == trace;
  }

  lemma {:induction false} StartFails(world: World, trace: Trace, files: seq<File>, started: seq<File>)
    requires AllReturned(trace) && Start(world, trace, files, started).failure.Some?
    ensures var s := Start(world, trace, files, started);
            EndsWith(s.trace, s.failure.value) && Commands(s.trace) <= Commands(trace) + StartCommands(files)
    decreases |files|
  {
    var f := files[0];
    var t1 := Do(world, trace, Config(f));
    var t2 := Do(world, t1, Down(f));
    var t3 := Do(world, t2, Up(f));
    DoCommands(world, trace, Config(f));
    DoCommands(world, t1, Down(f));
    DoCommands(world, t2, Up(f));
    Regroup(Commands(trace), Config(f), Down(f), Up(f), StartCommands(files[1..]));
    if Last(t1).Raised? {
      DoFails(world, trace, Config(f));
    } else if Last(t2).Raised? {
      DoFails(world, t1, Down(f));
    } else if Last(t3).Raised? {
      DoFails(world, t2, Up(f));
    } else {
      StartFails(world, t3, files[1..], started + [f]);
    }
  }

  /** What a failed attempt shows. */
  predicate AttemptExplained(a: Attempted, at: string)
  {
    match a.reason
    case Step(f) => EndsWith(a.trace, f)
    case RepositoryMoved =>
      && a.trace != [] && AllReturned(a.trace) && a.trace[|a.trace| - 1].command == Preflight
      && Last(a.trace) != Returned(at)
    case CleanupFailed(_) => false
  }

  lemma AttemptFails(world: World, trace: Trace, at: string, files: seq<File>)
    requires AllReturned(trace) && Commands(trace) == [Preflight] && Attempt(world, trace, at, files).result == None
    ensures AttemptExplained(Attempt(world, trace, at, files), at)
    ensures Commands(Attempt(world, trace, at, files).trace) <= AttemptCommands(files)
  {
    var s := Start(world, trace, files, []);
    if s.failure.Some? {
      StartFails(world, trace, files, []);
    } else {
      StartSucceeded(world, trace, files, []);
      var t1 := Do(world, s.trace, Measure);
      DoCommands(world, s.trace, Measure);
      if Last(t1).Raised? {
        DoFails(world, s.trace, Measure);
      } else {
        DoCommands(world, t1, Preflight);
        if Last(Do(world, t1, Preflight)).Raised? { DoFails(world, t1, Preflight); }
      }
    }
  }

  lemma {:induction false} StopFailures(world: World, trace: Trace, started: seq<File>, failures: seq<File>)
    requires Stop(world, trace, started, failures).interrupted == None
    ensures var s := Stop(world, trace, started, failures);
            trace <= s.trace && s.failures == failures + FailedDowns(s.trace[|trace|..])
    decreases |started|
  {
    StopExtends(world, trace, started, failures);
    var s := Stop(world, trace, started, failures);
    if started == [] {
      assert s.trace[|trace|..] == [];
      assert failures + [] == failures;
    } else {
      var n := |started| - 1;
      var t := Do(world, trace, Down(started[n]));
      var failed := if Last(t).Raised? then [started[n]] else [];
      assert failures + [] == failures;
      StopFailures(world, t, started[..n], failures + failed);
      var tail := s.trace[|trace|..];
      assert t[|trace|] == s.trace[|trace|];
      assert tail[0] == t[|trace|] && tail[1..] == s.trace[|t|..];
      Assoc(failures, failed, FailedDowns(s.trace[|t|..]));
    }
  }

  // ----- the exit -----

  lemma {:induction false} CollectCommands(world: World, trace: Trace, wanted: seq<Command>)
    requires Collect(world, trace, wanted).interrupted == None
    ensures Commands(Collect(world, trace, wanted).trace) == Commands(trace) + wanted
    decreases |wanted|
  {
    if wanted != [] {
      var t := Do(world, trace, wanted[0]);
      DoCommands(world, trace, wanted[0]);
      CollectCommands(world, t, wanted[1..]);
      Assoc(Commands(trace), [wanted[0]], wanted[1..]);
      assert [wanted[0]] + wanted[1..] == wanted;
    }
  }

  /** All of diagnostics and cleanup follow a failed attempt. */
  lemma RecoverCommands(world: World, a: Attempted, diagnose: bool, keep: bool)
    requires a.result == None && Recover(world, a, diagnose, keep).interrupted == None
    ensures var run := Recover(world, a, diagnose, keep);
            run.exit == Error(a.reason) && Commands(run.trace) == Commands(a.trace) + RecoveryCommands(a.started, diagnose, keep)
  {
    if diagnose { CollectCommands(world, a.trace, Diagnostics(a.started)); }
    var d := if diagnose then Collect(world, a.trace, Diagnostics(a.started)) else Stopped(a.trace, [], None);
    if !keep { StopCommands(world, d.trace, a.started, []); }
    Assoc(Commands(a.trace), if diagnose then Diagnostics(a.started) else [], if keep then [] else Downs(a.started));
  }

  lemma CommandsFrom(trace: Trace, a: Trace, more: seq<Command>)
    requires a <= trace && Commands(trace) == Commands(a) + more
    ensures trace[..|a|] == a && Commands(trace[|a|..]) == more
  {
    assert Commands(trace[|a|..]) == Commands(trace)[|a|..];
  }

  /** What a failed attempt shows, the whole run shows. */
  lemma FailedAttemptShows(first: Trace, a: Attempted, run: Run, at: string, files: seq<File>, diagnose: bool, keep: bool)
    requires AttemptExplained(a, at) && |first| == 1 && first <= a.trace <= run.trace && Last(first) == Returned(at)
    requires Commands(a.trace) <= AttemptCommands(files) && run.started == a.started
    requires Commands(run.trace) == Commands(a.trace) + RecoveryCommands(a.started, diagnose, keep)
    ensures a.reason.Step? ==> FailedStep(run, files, diagnose, keep, a.reason.failure)
    ensures a.reason.RepositoryMoved? ==> Moved(run, files, diagnose, keep)
  {
    var i := |a.trace| - 1;
    CommandsFrom(run.trace, a.trace, RecoveryCommands(a.started, diagnose, keep));
    assert run.trace[0] == a.trace[0] == first[0] && run.trace[i] == a.trace[i];
    assert run.trace[..i] == a.trace[..i];
    assert i > 0;
    assert EndedAt(run, files, diagnose, keep, i);
  }

  /** A preflight that fails is all there is. */
  lemma NothingAttempted(first: Trace, run: Run, files: seq<File>, diagnose: bool, keep: bool)
    requires |first| == 1 && run.trace == first && Commands(first) == [Preflight] && Last(first).Raised?
    ensures FailedStep(run, files, diagnose, keep, Last(first).failure)
  {
    assert run.trace[..0 + 1] == first && run.trace[0 + 1..] == [];
    assert EndedAt(run, files, diagnose, keep, 0);
  }

  /** The exit, explained by the events. */
  predicate Explained(run: Run, files: seq<File>, diagnose: bool, keep: bool)
  {
    match run.exit
    case Value(_) => Green(run, files, keep)
    case Error(Step(f)) => FailedStep(run, files, diagnose, keep, f)
    case Error(RepositoryMoved) => Moved(run, files, diagnose, keep)
    case Error(CleanupFailed(failed)) => !keep && OnlyCleanupFailed(run.trace, files, failed)
  }

  lemma ConcludeExplained(world: World, a: Attempted, files: seq<File>)
    requires a.result.Some? && a.started == files && AllReturned(a.trace)
    requires Commands(a.trace) == [Preflight] + StartCommands(files) + [Measure, Preflight]
    requires Conclude(world, a, false).interrupted == None
    ensures var run := Conclude(world, a, false);
            run.exit.Error? ==> run.exit.reason.CleanupFailed? && OnlyCleanupFailed(run.trace, files, run.exit.reason.files)
  {
    var run := Conclude(world, a, false);
    StopFailures(world, a.trace, files, []);
    StopCommands(world, a.trace, files, []);
    assert |Commands(run.trace)| == |Commands(a.trace)| + |files|;
    assert run.trace[..|a.trace|] == a.trace;
    assert [] + FailedDowns(run.trace[|a.trace|..]) == FailedDowns(run.trace[|a.trace|..]);
  }

  /** Every run that was not interrupted ends for the reason its trace shows: a
      value for a green run; otherwise the failure the attempt ended with, and
      all of diagnostics and cleanup after it; or a moved repository, likewise;
      or, when everything else succeeded, exactly the files cleanup could not stop. */
  lemma ExitIsExplained(world: World, files: seq<File>, diagnose: bool, keep: bool)
    requires Whole(world, files, diagnose, keep).interrupted == None
    ensures Explained(Whole(world, files, diagnose, keep), files, diagnose, keep)
  {
    FirstStep(world);
    var first := Do(world, [], Preflight);
    var run := Whole(world, files, diagnose, keep);
    if run.exit.Value? {
      ValueMeansGreen(world, files, diagnose, keep);
    } else if Last(first).Raised? {
      NothingAttempted(first, run, files, diagnose, keep);
    } else {
      var at := Last(first).value;
      var a := Attempt(world, first, at, files);
      AttemptShape(world, first, at, files);
      FinishShape(world, a, diagnose, keep);
      if a.result == None {
        AttemptFails(world, first, at, files);
        RecoverCommands(world, a, diagnose, keep);
        FailedAttemptShows(first, a, run, at, files, diagnose, keep);
      } else {
        AttemptSucceeded(world, first, at, files);
        ConcludeExplained(world, a, files);
      }
    }
  }
}
