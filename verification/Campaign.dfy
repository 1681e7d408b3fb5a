/** The lifecycle of scripts/fixture_campaign.py: preflight, start, measure,
    postflight, cleanup, where every external step may fail.

    The environment is an arbitrary function of the history and the command,
    so a statement about all environments is a statement about all runs. */
module Campaign {
  import opened Text

  type File = string

  datatype Command =
    | Preflight | Measure
    | Config(file: File) | Down(file: File) | Up(file: File)
    | MakeDirectory | ListContainers | Logs(file: File)

  /** `caught`: an `OSError`, `RuntimeError` or `SubprocessError`, the classes
      cleanup and diagnostics swallow. */
  datatype Failure = Failure(caught: bool, detail: string)
  datatype Reply = Returned(value: string) | Raised(failure: Failure)
  datatype Event = Event(command: Command, reply: Reply)
  type Trace = seq<Event>
  type World = (Trace, Command) -> Reply

  function Do(world: World, trace: Trace, command: Command): Trace
  {
    trace + [Event(command, world(trace, command))]
  }

  /** How the last step went. */
  function Last(trace: Trace): Reply
    requires trace != []
  {
    trace[|trace| - 1].reply
  }

  // ----- the steps, as functions of the environment -----

  datatype Started = Started(trace: Trace, started: seq<File>, failure: Option<Failure>)

  /** `start_fixtures`: the list of started files grows before each `down` and `up`. */
  function Start(world: World, trace: Trace, files: seq<File>, started: seq<File>): Started
    decreases |files|
  {
    if files == [] then Started(trace, started, None) else
    var f := files[0];
    var t1 := Do(world, trace, Config(f));
    if Last(t1).Raised? then Started(t1, started, Some(Last(t1).failure)) else
    var t2 := Do(world, t1, Down(f));
    if Last(t2).Raised? then Started(t2, started + [f], Some(Last(t2).failure)) else
    var t3 := Do(world, t2, Up(f));
    if Last(t3).Raised? then Started(t3, started + [f], Some(Last(t3).failure)) else
    Start(world, t3, files[1..], started + [f])
  }

  datatype Stopped = Stopped(trace: Trace, failures: seq<File>, interrupted: Option<Failure>)

  /** `stop_fixtures`: last started first, past every caught failure. */
  function Stop(world: World, trace: Trace, started: seq<File>, failures: seq<File>): Stopped
    decreases |started|
  {
    if started == [] then Stopped(trace, failures, None) else
    var n := |started| - 1;
    var t := Do(world, trace, Down(started[n]));
    match Last(t)
    case Returned(_) => Stop(world, t, started[..n], failures)
    case Raised(e) =>
      if e.caught then Stop(world, t, started[..n], failures + [started[n]])
      else Stopped(t, failures, Some(e))
  }

  /** `diagnostics`: each attempt on its own. */
  function Collect(world: World, trace: Trace, wanted: seq<Command>): Stopped
    decreases |wanted|
  {
    if wanted == [] then Stopped(trace, [], None) else
    var t := Do(world, trace, wanted[0]);
    if Last(t).Raised? && !Last(t).failure.caught then Stopped(t, [], Some(Last(t).failure))
    else Collect(world, t, wanted[1..])
  }

  function Diagnostics(started: seq<File>): seq<Command>
  {
    [MakeDirectory, ListContainers] + seq(|started|, i requires 0 <= i < |started| => Logs(started[i]))
  }

  datatype Reason = Step(failure: Failure) | RepositoryMoved | CleanupFailed(files: seq<File>)
  datatype Attempted = Attempted(trace: Trace, started: seq<File>, result: Option<string>, reason: Reason)

  /** Measure and postflight, once the fixtures are started. */
  function MeasureAndConfirm(world: World, s: Started, startedAt: string): Attempted
  {
    if s.failure.Some? then Attempted(s.trace, s.started, None, Step(s.failure.value)) else
    var t1 := Do(world, s.trace, Measure);
    if Last(t1).Raised? then Attempted(t1, s.started, None, Step(Last(t1).failure)) else
    var t2 := Do(world, t1, Preflight);
    if Last(t2).Raised? then Attempted(t2, s.started, None, Step(Last(t2).failure)) else
    if Last(t2).value != startedAt then Attempted(t2, s.started, None, RepositoryMoved) else
    Attempted(t2, s.started, Some(Last(t1).value), RepositoryMoved)
  }

  /** The `try` block: start, measure, postflight. */
  function Attempt(world: World, trace: Trace, startedAt: string, files: seq<File>): Attempted
  {
    MeasureAndConfirm(world, Start(world, trace, files, []), startedAt)
  }

  datatype Exit = Value(value: string) | Error(reason: Reason)

  /** A finished run. `interrupted` is an uncaught failure of cleanup or diagnostics. */
  datatype Run = Run(trace: Trace, started: seq<File>, exit: Exit, interrupted: Option<Failure>)

  /** The `except` block: diagnostics, cleanup, the original error again. */
  function Recover(world: World, a: Attempted, diagnose: bool, keep: bool): Run
  {
    var d := if diagnose then Collect(world, a.trace, Diagnostics(a.started)) else Stopped(a.trace, [], None);
    if d.interrupted.Some? then Run(d.trace, a.started, Error(Step(d.interrupted.value)), d.interrupted)
    else if keep then Run(d.trace, a.started, Error(a.reason), None)
    else
      var s := Stop(world, d.trace, a.started, []);
      if s.interrupted.Some? then Run(s.trace, a.started, Error(Step(s.interrupted.value)), s.interrupted)
      else Run(s.trace, a.started, Error(a.reason), None)
  }

  /** After a measured value: cleanup, whose failure is then the error. */
  function Conclude(world: World, a: Attempted, keep: bool): Run
    requires a.result.Some?
  {
    if keep then Run(a.trace, a.started, Value(a.result.value), None)
    else
      var s := Stop(world, a.trace, a.started, []);
      if s.interrupted.Some? then Run(s.trace, a.started, Error(Step(s.interrupted.value)), s.interrupted)
      else if s.failures != [] then Run(s.trace, a.started, Error(CleanupFailed(s.failures)), None)
      else Run(s.trace, a.started, Value(a.result.value), None)
  }

  /** What follows the `try` block. */
  function Finish(world: World, a: Attempted, diagnose: bool, keep: bool): Run
  {
    if a.result.Some? then Conclude(world, a, keep) else Recover(world, a, diagnose, keep)
  }

  /** `campaign`. */
  function Whole(world: World, files: seq<File>, diagnose: bool, keep: bool): Run
  {
    var t := Do(world, [], Preflight);
    if Last(t).Raised? then Run(t, [], Error(Step(Last(t).failure)), None) else
    Finish(world, Attempt(world, t, Last(t).value, files), diagnose, keep)
  }

  // ----- the program -----

  class Runner {
    const world: World
    var trace: Trace
    var started: seq<File>

    constructor (world: World)
      ensures this.world == world && trace == [] && started == []
    {
      this.world := world;
      trace, started := [], [];
    }

    method Execute(command: Command) returns (reply: Reply)
      modifies this`trace
      ensures trace == Do(world, old(trace), command) && reply == Last(trace)
    {
      reply := world(trace, command);
      trace := trace + [Event(command, reply)];
    }

    method StartFixtures(files: seq<File>) returns (failure: Option<Failure>)
      modifies this
      ensures Started(trace, started, failure) == Start(world, old(trace), files, old(started))
    {
      var i := 0;
      ghost var goal := Start(world, trace, files, started);
      assert files[0..] == files;
      while i < |files|
        invariant i <= |files| && goal == Start(world, trace, files[i..], started)
      {
        var f := files[i];
        assert files[i..][1..] == files[i + 1..];
        var reply := Execute(Config(f));
        if reply.Raised? { return Some(reply.failure); }
        started := started + [f];
        reply := Execute(Down(f));
        if reply.Raised? { return Some(reply.failure); }
        reply := Execute(Up(f));
        if reply.Raised? { return Some(reply.failure); }
        i := i + 1;
      }
      return None;
    }

    method StopFixtures() returns (failures: seq<File>, interrupted: Option<Failure>)
      modifies this`trace
      ensures Stopped(trace, failures, interrupted) == Stop(world, old(trace), started, [])
    {
      failures := [];
      var n := |started|;
      ghost var goal := Stop(world, trace, started, []);
      assert started[..n] == started;
      while n > 0
        invariant n <= |started| && goal == Stop(world, trace, started[..n], failures)
      {
        n := n - 1;
        assert started[..n + 1][..n] == started[..n];
        var reply := Execute(Down(started[n]));
        if reply.Raised? {
          if !reply.failure.caught { return failures, Some(reply.failure); }
          failures := failures + [started[n]];
        }
      }
      return failures, None;
    }

    method RunDiagnostics() returns (interrupted: Option<Failure>)
      modifies this`trace
      ensures Stopped(trace, [], interrupted) == Collect(world, old(trace), Diagnostics(started))
    {
      var wanted := Diagnostics(started);
      var i := 0;
      ghost var goal := Collect(world, trace, wanted);
      assert wanted[0..] == wanted;
      while i < |wanted|
        invariant i <= |wanted| && goal == Collect(world, trace, wanted[i..])
      {
        assert wanted[i..][1..] == wanted[i + 1..];
        var reply := Execute(wanted[i]);
        if reply.Raised? && !reply.failure.caught { return Some(reply.failure); }
        i := i + 1;
      }
      return None;
    }

    /** The `try` block; `result` is `None` when it raised `reason`. */
    method RunAttempt(files: seq<File>, startedAt: string) returns (result: Option<string>, reason: Reason)
      requires started == []
      modifies this
      ensures Attempted(trace, started, result, reason) == Attempt(world, old(trace), startedAt, files)
    {
      var failure := StartFixtures(files);
      if failure.Some? { return None, Step(failure.value); }
      var measured := Execute(Measure);
      if measured.Raised? { return None, Step(measured.failure); }
      var ended := Execute(Preflight);
      if ended.Raised? { return None, Step(ended.failure); }
      if ended.value != startedAt { return None, RepositoryMoved; }
      return Some(measured.value), RepositoryMoved;
    }

    method RunCampaign(files: seq<File>, diagnose: bool, keep: bool) returns (exit: Exit)
      requires trace == [] && started == []
      modifies this
      ensures var run := Whole(world, files, diagnose, keep);
              trace == run.trace && started == run.started && exit == run.exit
    {
      var first := Execute(Preflight);
      if first.Raised? { return Error(Step(first.failure)); }
      var result, reason := RunAttempt(files, first.value);
      var failures, interrupted;
      if result == None {
        if diagnose {
          interrupted := RunDiagnostics();
          if interrupted.Some? { return Error(Step(interrupted.value)); }
        }
        if !keep {
          failures, interrupted := StopFixtures();
          if interrupted.Some? { return Error(Step(interrupted.value)); }
        }
        return Error(reason);
      }
      if !keep {
        failures, interrupted := StopFixtures();
        if interrupted.Some? { return Error(Step(interrupted.value)); }
        if failures != [] { return Error(CleanupFailed(failures)); }
      }
      return Value(result.value);
    }
  }
}
