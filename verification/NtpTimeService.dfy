/** The mutable `NtpTimeService`: each public call, taken without interference, makes exactly the steps of its thread
    in the step system. */
module NtpTimeServiceModel {
  import opened NtpService

  /** What a call meets on its way: whether the current runner says it is running, whether a new one could be built,
      whether it started, and whether its first measurement succeeded. */
  datatype Weather = Weather(alive: bool, built: bool, hasStarted: bool, measured: bool)

  predicate Pending(s: Service) {
    0 in s.threads && !MayEnter(s.threads[0]) && (s.threads[0].Waiting? ==> !Transitioning(s))
  }

  function StepOf(s: Service, w: Weather): Step
    requires Pending(s)
  {
    match s.threads[0]
    case Waiting(_) => Lock(0, w.alive, w.built)
    case StoppingOld(_, _) => StopOld(0)
    case StartingMade(_, _) => StartMade(0, w.hasStarted, w.measured)
    case Judging(_, _, _, _) => Judge(0)
    case Publishing(_, _, _) => Publish(0)
    case StoppingLocal(_, _) => StopLocal(0)
    case _ => Close(0)
  }

  /** The next thing the calling thread does. */
  function Follow(s: Service, w: Weather): (s': Service)
    requires Pending(s)
    ensures Next(s, StepOf(s, w), s')
    ensures 0 in s'.threads && Rank(s'.threads[0]) < Rank(s.threads[0]) && !s'.threads[0].Waiting? && !s'.threads[0].Idle?
  {
    match s.threads[0]
    case Waiting(call) => Locked(s, 0, call, w.alive, w.built)
    case StoppingOld(previous, made) => At(s.(started := s.started - {previous}), 0, StartingMade(Call.Apply, made))
    case StartingMade(call, made) => MadeStarted(s, 0, call, made, w.hasStarted, w.measured)
    case Judging(call, made, hasStarted, ok) => Judged(s, 0, call, made, hasStarted, ok)
    case Publishing(call, kept, ok) => Published(s, 0, call, kept, ok)
    case StoppingLocal(call, local) => At(s.(started := s.started - {local}), 0, Closing(call))
    case Closing(call) => At(s.(state := Stopped), 0, Returned(call, true))
    case ExitEmpty => At(s.(state := Stopped), 0, Returned(Call.Exit, true))
  }

  function Rank(p: Phase): nat {
    match p
    case Waiting(_) => 7
    case StoppingOld(_, _) => 6
    case StartingMade(_, _) => 5
    case Judging(_, _, _, _) => 4
    case Publishing(_, _, _) => 3
    case StoppingLocal(_, _) => 2
    case Closing(_) => 1
    case ExitEmpty => 1
    case _ => 0
  }

  /** The whole call, step by step until it returns. */
  function Finish(s: Service, w: Weather): Service
    requires 0 in s.threads && (s.threads[0].Returned? || Pending(s))
    decreases Rank(s.threads[0])
  {
    if s.threads[0].Returned? then s else Finish(Follow(s, w), w)
  }

  /** One step of a call, from `s` to `s'`. */
  lemma FinishSteps(s: Service, s': Service, w: Weather)
    requires Pending(s) && s'.threads.Keys == {0} == s.threads.Keys && s'.threads[0] == Follow(s, w).threads[0]
    requires s' == Follow(s, w).(threads := s'.threads)
    ensures Finish(s, w) == Finish(s', w)
  {
    assert s'.threads == Follow(s, w).threads;
  }

  lemma FinishReturned(s: Service, w: Weather)
    requires 0 in s.threads && s.threads[0].Returned?
    ensures Finish(s, w) == s
  {
  }

  /** How the exit handler ends that found nothing to stop. */
  lemma ExitEmptyEnds(s: Service, w: Weather)
    requires s.threads == map[0 := ExitEmpty]
    ensures Finish(s, w) == s.(state := Stopped, threads := map[0 := Returned(Call.Exit, true)])
  {
    assert Follow(s, w).threads == map[0 := Returned(Call.Exit, true)];
    FinishReturned(Follow(s, w), w);
  }

  function Removed(started: set<Runner>, r: Option<Runner>): set<Runner> {
    if r.Some? then started - {r.value} else started
  }

  /** How a call ends that has a new runner to start. */
  lemma StartingEnds(s: Service, call: Call, made: Runner, w: Weather)
    requires s.threads == map[0 := StartingMade(call, made)]
    ensures var ok := w.hasStarted && w.measured;
      var started := if w.hasStarted then s.started + {made} else s.started;
      Finish(s, w)
      == if ok && !s.shuttingDown then
           s.(state := Running, runner := Some(made), started := Removed(started, s.runner), threads := map[0 := Returned(call, ok)])
         else
           s.(state := Stopped, runner := None, started := Removed(started - {made}, s.runner), threads := map[0 := Returned(call, ok)])
  {
    var s1 := Follow(s, w);
    var s2 := Follow(s1, w);
    var s3 := Follow(s2, w);
    assert Finish(s, w) == Finish(s1, w) == Finish(s2, w) == Finish(s3, w) == s3;
    assert s3.threads == map[0 := Returned(call, w.hasStarted && w.measured)];
  }

  /** How `apply_config_now` comes to start its new runner: the old one, if there is one, is stopped before. */
  lemma ApplyStarts(s: Service, w: Weather)
    requires s.threads == map[0 := Waiting(Call.Apply)] && !Transitioning(s) && !s.shuttingDown && w.built
    ensures var made := Runner(s.nextRunner, s.cfg);
      Finish(s, w) == Finish(s.(state := Starting, runner := None, nextRunner := s.nextRunner + 1, started := Removed(s.started, s.runner),
                                threads := map[0 := StartingMade(Call.Apply, made)]), w)
  {
    var s1 := Follow(s, w);
    hide Finish;
    FinishSteps(s, s1, w);
    if s.runner.Some? {
      var s2 := Follow(s1, w);
      FinishSteps(s1, s2, w);
      assert s2.threads == map[0 := StartingMade(Call.Apply, Runner(s.nextRunner, s.cfg))];
    } else {
      assert s1.threads == map[0 := StartingMade(Call.Apply, Runner(s.nextRunner, s.cfg))];
    }
  }

  /** And how it ends if it could build none. */
  lemma ApplyFails(s: Service, w: Weather)
    requires s.threads == map[0 := Waiting(Call.Apply)] && !Transitioning(s) && !s.shuttingDown && !w.built
    ensures Finish(s, w) == s.(state := if s.state == Running && s.runner.Some? && w.alive then Running else Stopped,
                               threads := map[0 := Returned(Call.Apply, false)])
  {
    assert Follow(s, w).threads == map[0 := Returned(Call.Apply, false)];
    FinishReturned(Follow(s, w), w);
  }

  /** How a call ends that has a runner to stop. */
  lemma StoppingEnds(s: Service, call: Call, local: Runner, w: Weather)
    requires s.threads == map[0 := StoppingLocal(call, local)]
    ensures Finish(s, w) == s.(state := Stopped, started := s.started - {local}, threads := map[0 := Returned(call, true)])
  {
    var s1 := Follow(s, w);
    var s2 := Follow(s1, w);
    assert Finish(s, w) == Finish(s1, w) == Finish(s2, w) == s2;
    assert s2.threads == map[0 := Returned(call, true)];
  }

  class NtpTimeService {
    var state: State
    var shuttingDown: bool
    var runner: Option<Runner>
    var cfg: nat
    var nextRunner: nat
    ghost var started: set<Runner>

    constructor ()
      ensures View(Idle) == Service(Stopped, false, None, 0, 0, {}, map[0 := Idle]) && Initial(View(Idle))
    {
      state, shuttingDown, runner, cfg, nextRunner, started := Stopped, false, None, 0, 0, {};
    }

    /** The service with the calling thread standing at `p`. */
    ghost function View(p: Phase): Service
      reads this
    {
      Service(state, shuttingDown, runner, cfg, nextRunner, started, map[0 := p])
    }

    ghost predicate Settled()
      reads this
    {
      state == Stopped || state == Running
    }

    method BuildRunnerLocked() returns (made: Runner)
      modifies this`nextRunner
      ensures made == Runner(old(nextRunner), cfg) && nextRunner == old(nextRunner) + 1
    {
      made := Runner(nextRunner, cfg);
      nextRunner := nextRunner + 1;
    }

    /** Starting, judging and publishing a new runner: the common end of `init` and `apply_config_now`. */
    method StartAndPublish(made: Runner, ghost call: Call, w: Weather) returns (ok: bool)
      modifies this
      ensures View(Returned(call, ok)) == Finish(old(View(StartingMade(call, made))), w)
      ensures ok == (w.hasStarted && w.measured) && shuttingDown == old(shuttingDown) && cfg == old(cfg) && nextRunner == old(nextRunner)
      ensures if ok && !shuttingDown then state == Running && runner == Some(made) else state == Stopped && runner == None
    {
      hide Finish;
      StartingEnds(View(StartingMade(call, made)), call, made, w);
      var kept := Some(made);
      ok := false;
      if w.hasStarted {
        started := started + {made};
        ok := w.measured;
      }
      if !w.hasStarted || !ok || shuttingDown {
        started := started - {made};
        kept := None;
      }
      if runner.Some? { started := started - {runner.value}; }
      if kept.Some? {
        runner := kept;
        state := Running;
      } else {
        runner := None;
        state := Stopped;
      }
    }

    method Init(w: Weather) returns (result: bool)
      requires Settled()
      modifies this
      ensures View(Returned(Call.Init, result)) == Finish(Entered(old(View(Idle)), 0, Call.Init), w)
      ensures var runs := old(state) == Running && old(runner).Some? && w.alive;
        && (result <==> !old(shuttingDown) && (runs || (w.built && w.hasStarted && w.measured)))
        && (result ==> state == Running && runner == if runs then old(runner) else Some(Runner(old(nextRunner), old(cfg))))
    {
      ghost var s := Entered(View(Idle), 0, Call.Init);
      if shuttingDown {
        return false;
      }
      if state == Running && runner.Some? && w.alive {
        return true;
      }
      state := Starting;
      if !w.built {
        state := Stopped;
        return false;
      }
      var made := BuildRunnerLocked();
      FinishSteps(s, View(StartingMade(Call.Init, made)), w);
      result := StartAndPublish(made, Call.Init, w);
    }

    method ApplyConfigNow(w: Weather) returns (result: bool)
      requires Settled()
      modifies this
      ensures View(Returned(Call.Apply, result)) == Finish(Entered(old(View(Idle)), 0, Call.Apply), w)
      ensures result <==> !old(shuttingDown) && w.built && w.hasStarted && w.measured
      ensures result ==> state == Running && runner == Some(Runner(old(nextRunner), old(cfg)))
      ensures !old(shuttingDown) && !w.built ==>
                runner == old(runner) && (state == Running <==> old(state) == Running && old(runner).Some? && w.alive)
    {
      hide Finish;
      ghost var s := Entered(View(Idle), 0, Call.Apply);
      if shuttingDown {
        FinishReturned(s, w);
        return false;
      }
      assert s.threads == map[0 := Waiting(Call.Apply)];
      var wasRunning := state == Running && runner.Some? && w.alive;
      state := Starting;
      if !w.built {
        ApplyFails(s, w);
        state := if wasRunning then Running else Stopped;
        return false;
      }
      ApplyStarts(s, w);
      var made := BuildRunnerLocked();
      var previous := runner;
      runner := None;
      if previous.Some? {
        started := started - {previous.value};
      }
      result := StartAndPublish(made, Call.Apply, w);
    }

    method Shutdown(w: Weather)
      requires Settled()
      modifies this
      ensures View(Returned(Call.Shutdown, true)) == Finish(Entered(old(View(Idle)), 0, Call.Shutdown), w)
      ensures state == Stopped || runner == None
      ensures runner == None || (old(state) == Stopped && runner == old(runner))
    {
      ghost var s := Entered(View(Idle), 0, Call.Shutdown);
      if state == Stopped || runner.None? {
        return;
      }
      state := Stopping;
      var local := runner.value;
      runner := None;
      ghost var s1 := View(StoppingLocal(Call.Shutdown, local));
      FinishSteps(s, s1, w);
      hide Finish;
      StoppingEnds(s1, Call.Shutdown, local, w);
      started := started - {local};
      state := Stopped;
    }

    method BeginProcessShutdown(w: Weather)
      requires Settled()
      modifies this
      ensures View(Returned(Call.Exit, true)) == Finish(Entered(old(View(Idle)), 0, Call.Exit), w)
      ensures shuttingDown && state == Stopped && runner == None
    {
      hide Finish;
      ghost var s := Entered(View(Idle), 0, Call.Exit);
      shuttingDown := true;
      if runner.Some? {
        var local := runner.value;
        state := Stopping;
        runner := None;
        ghost var s1 := View(StoppingLocal(Call.Exit, local));
        FinishSteps(s, s1, w);
        StoppingEnds(s1, Call.Exit, local, w);
        started := started - {local};
      } else {
        state := Stopped;
        ghost var s1 := View(ExitEmpty);
        FinishSteps(s, s1, w);
        ExitEmptyEnds(s1, w);
      }
      state := Stopped;
    }

    /** `set_servers` and the other setters. */
    method Configure(cfg: nat) returns (accepted: bool)
      modifies this`cfg
      ensures accepted <==> Reconfigurable(old(View(Idle)))
      ensures Next(old(View(Idle)), Step.Configure(cfg), View(Idle))
      ensures this.cfg == if accepted then cfg else old(this.cfg)
    {
      if shuttingDown || state != Stopped || runner.Some? {
        return false;
      }
      this.cfg := cfg;
      return true;
    }
  }
}
