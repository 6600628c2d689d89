/** The lifecycle of `NtpTimeService`: locked sections, unlocked runner calls and flag reads of any number of
    threads, as a step system. */
module NtpService {
  datatype State = Stopped | Starting | Running | Stopping

  /** A background runner and the configuration it was built with. */
  datatype Runner = Runner(id: nat, cfg: nat)

  datatype Option<T> = None | Some(value: T)

  datatype Call = Init | Apply | Shutdown | Exit

  /** Where a thread stands. */
  datatype Phase =
    | Idle
    | Waiting(call: Call)
    | StoppingOld(previous: Runner, made: Runner)
    | StartingMade(call: Call, made: Runner)
    | Judging(call: Call, made: Runner, hasStarted: bool, ok: bool)
    | Publishing(call: Call, kept: Option<Runner>, ok: bool)
    | StoppingLocal(call: Call, local: Runner)
    | Closing(call: Call)
    | ExitEmpty
    | Returned(call: Call, result: bool)

  /** `started` holds the runners whose `start` succeeded and that were neither stopped nor destroyed since. */
  datatype Service = Service(state: State, shuttingDown: bool, runner: Option<Runner>, cfg: nat,
                             nextRunner: nat, started: set<Runner>, threads: map<nat, Phase>)

  datatype Step =
    | Enter(t: nat, call: Call)
    | Lock(t: nat, alive: bool, built: bool)
    | StopOld(t: nat)
    | StartMade(t: nat, hasStarted: bool, ok: bool)
    | Judge(t: nat)
    | Publish(t: nat)
    | StopLocal(t: nat)
    | Close(t: nat)
    | Configure(cfg: nat)

  function At(s: Service, t: nat, p: Phase): Service {
    s.(threads := s.threads[t := p])
  }

  predicate Transitioning(s: Service) {
    s.state == Starting || s.state == Stopping
  }

  /** The flag is read before the lock is taken, and set first of all by the exit handler. */
  function Entered(s: Service, t: nat, call: Call): Service {
    match call
    case Init => At(s, t, if s.shuttingDown then Returned(Init, false) else Waiting(Init))
    case Apply => At(s, t, if s.shuttingDown then Returned(Apply, false) else Waiting(Apply))
    case Shutdown => At(s, t, Waiting(Shutdown))
    case Exit => At(s.(shuttingDown := true), t, Waiting(Exit))
  }

  /** The first locked section of `init`. `alive` is what the current runner's `running` says, `built` whether a
      new one could be made. */
  function InitLocked(s: Service, t: nat, alive: bool, built: bool): Service {
    if s.shuttingDown then At(s, t, Returned(Init, false))
    else if s.state == Running && s.runner.Some? && alive then At(s, t, Returned(Init, true))
    else if !built then At(s.(state := Stopped), t, Returned(Init, false))
    else At(s.(state := Starting, nextRunner := s.nextRunner + 1), t, StartingMade(Init, Runner(s.nextRunner, s.cfg)))
  }

  function ApplyLocked(s: Service, t: nat, alive: bool, built: bool): Service {
    if s.shuttingDown then At(s, t, Returned(Apply, false))
    else if !built then
      At(s.(state := if s.state == Running && s.runner.Some? && alive then Running else Stopped), t, Returned(Apply, false))
    else
      var made := Runner(s.nextRunner, s.cfg);
      At(s.(state := Starting, nextRunner := s.nextRunner + 1, runner := None), t,
         if s.runner.Some? then StoppingOld(s.runner.value, made) else StartingMade(Apply, made))
  }

  function ShutdownLocked(s: Service, t: nat): Service {
    if s.state == Stopped || s.runner.None? then At(s, t, Returned(Shutdown, true))
    else At(s.(state := Stopping, runner := None), t, StoppingLocal(Shutdown, s.runner.value))
  }

  function ExitLocked(s: Service, t: nat): Service {
    if s.runner.Some? then At(s.(state := Stopping, runner := None), t, StoppingLocal(Exit, s.runner.value))
    else At(s.(state := Stopped), t, ExitEmpty)
  }

  function Locked(s: Service, t: nat, call: Call, alive: bool, built: bool): Service {
    match call
    case Init => InitLocked(s, t, alive, built)
    case Apply => ApplyLocked(s, t, alive, built)
    case Shutdown => ShutdownLocked(s, t)
    case Exit => ExitLocked(s, t)
  }

  /** The new runner is started and measured; `ok` says that both went well. */
  function MadeStarted(s: Service, t: nat, call: Call, made: Runner, hasStarted: bool, ok: bool): Service {
    At(if hasStarted then s.(started := s.started + {made}) else s, t, Judging(call, made, hasStarted, hasStarted && ok))
  }

  /** It is kept only if all went well and the process is not exiting; otherwise it is stopped again. */
  function Judged(s: Service, t: nat, call: Call, made: Runner, hasStarted: bool, ok: bool): Service {
    if !hasStarted || !ok || s.shuttingDown then At(s.(started := s.started - {made}), t, Publishing(call, None, ok))
    else At(s, t, Publishing(call, Some(made), ok))
  }

  /** The last locked section of `init` and `apply_config_now`; a runner it replaces is destroyed. */
  function Published(s: Service, t: nat, call: Call, kept: Option<Runner>, ok: bool): Service {
    At(s.(runner := kept, state := if kept.Some? then Running else Stopped,
          started := if s.runner.Some? then s.started - {s.runner.value} else s.started), t, Returned(call, ok))
  }

  /** Configuration setters succeed only while nothing runs. */
  predicate Reconfigurable(s: Service) {
    !s.shuttingDown && s.state == Stopped && s.runner.None?
  }

  predicate MayEnter(p: Phase) {
    p.Idle? || p.Returned?
  }

  ghost predicate Next(s: Service, step: Step, s': Service) {
    match step
    case Enter(t, call) => t in s.threads && MayEnter(s.threads[t]) && s' == Entered(s, t, call)
    case Lock(t, alive, built) =>
      t in s.threads && s.threads[t].Waiting? && !Transitioning(s) && s' == Locked(s, t, s.threads[t].call, alive, built)
    case StopOld(t) =>
      t in s.threads && s.threads[t].StoppingOld?
      && s' == At(s.(started := s.started - {s.threads[t].previous}), t, StartingMade(Apply, s.threads[t].made))
    case StartMade(t, hasStarted, ok) =>
      t in s.threads && s.threads[t].StartingMade?
      && s' == MadeStarted(s, t, s.threads[t].call, s.threads[t].made, hasStarted, ok)
    case Judge(t) =>
      t in s.threads && s.threads[t].Judging?
      && s' == Judged(s, t, s.threads[t].call, s.threads[t].made, s.threads[t].hasStarted, s.threads[t].ok)
    case Publish(t) =>
      t in s.threads && s.threads[t].Publishing?
      && s' == Published(s, t, s.threads[t].call, s.threads[t].kept, s.threads[t].ok)
    case StopLocal(t) =>
      t in s.threads && s.threads[t].StoppingLocal?
      && s' == At(s.(started := s.started - {s.threads[t].local}), t, Closing(s.threads[t].call))
    case Close(t) =>
      t in s.threads && ((s.threads[t].Closing? && s' == At(s.(state := Stopped), t, Returned(s.threads[t].call, true)))
                         || (s.threads[t].ExitEmpty? && s' == At(s.(state := Stopped), t, Returned(Exit, true))))
    case Configure(cfg) => s' == if Reconfigurable(s) then s.(cfg := cfg) else s
  }

  predicate Initial(s: Service) {
    && s.state == Stopped && !s.shuttingDown && s.runner.None? && s.started == {}
    && forall t :: t in s.threads ==> s.threads[t] == Idle
  }

  ghost predicate IsRun(states: seq<Service>, steps: seq<Step>) {
    |states| == |steps| + 1 && Initial(states[0])
    && forall i :: 0 <= i < |steps| ==> Next(states[i], steps[i], states[i + 1])
  }

  // ----- the invariant -----

  /** The thread owns the current transition. */
  predicate Owns(p: Phase) {
    p.StoppingOld? || p.StartingMade? || p.Judging? || p.Publishing? || p.StoppingLocal? || p.Closing?
  }

  predicate OwnsIn(p: Phase, state: State) {
    match state
    case Starting => p.StoppingOld? || ((p.StartingMade? || p.Judging? || p.Publishing?) && (p.call.Init? || p.call.Apply?))
    case Stopping => p.StoppingLocal? || p.Closing?
    case _ => false
  }

  /** A started runner in the thread's hands. */
  function InHand(p: Phase): Option<Runner> {
    match p
    case StoppingOld(previous, _) => Some(previous)
    case Judging(_, made, hasStarted, _) => if hasStarted then Some(made) else None
    case Publishing(_, kept, _) => kept
    case StoppingLocal(_, local) => Some(local)
    case _ => None
  }

  /** The runner the thread is about to put in place. */
  function Coming(p: Phase): Option<Runner> {
    match p
    case StoppingOld(_, made) => Some(made)
    case StartingMade(_, made) => Some(made)
    case Judging(_, made, _, _) => Some(made)
    case Publishing(_, kept, _) => kept
    case _ => None
  }

  predicate Exiting(p: Phase) {
    p == Waiting(Exit) || p == Closing(Exit) || (p.StoppingLocal? && p.call == Exit) || p.ExitEmpty? || (p.Returned? && p.call == Exit)
  }

  /** The process is exiting, nothing runs, and nobody is starting or stopping anything. */
  predicate Closed(s: Service) {
    && s.shuttingDown && s.state == Stopped && s.runner.None? && s.started == {}
    && forall t :: t in s.threads ==> !Owns(s.threads[t])
  }

  function SetOf(r: Option<Runner>): set<Runner> {
    if r.Some? then {r.value} else {}
  }

  /** What holds of the owner of a transition: exactly the runner in place and the one in its hands are started, and
      the runner on its way has the current configuration. */
  predicate OwnerFits(s: Service, p: Phase) {
    && OwnsIn(p, s.state)
    && s.started == SetOf(s.runner) + SetOf(InHand(p)) && SetOf(s.runner) !! SetOf(InHand(p))
    && (Coming(p).Some? ==>
          Coming(p).value.cfg == s.cfg && Coming(p).value.id < s.nextRunner
          && (InHand(p) == Coming(p) || Coming(p).value !in s.started))
    && (InHand(p).Some? ==> InHand(p).value.id < s.nextRunner)
    && (p.Judging? && p.ok ==> p.hasStarted)
    && (p.Publishing? ==> (p.ok <==> p.kept.Some? || (p.ok && s.shuttingDown)))
  }

  predicate Base(s: Service) {
    && (s.runner.Some? ==> s.runner.value.id < s.nextRunner && s.runner.value.cfg == s.cfg)
    && (s.state == Running ==> s.runner.Some?)
    && (s.state == Stopping ==> s.runner.None?)
    && (!Transitioning(s) ==> s.started == SetOf(s.runner))
  }

  ghost predicate OneOwner(s: Service) {
    && (forall t :: t in s.threads && Owns(s.threads[t]) ==> OwnerFits(s, s.threads[t]))
    && (forall t, u :: t in s.threads && u in s.threads && Owns(s.threads[t]) && Owns(s.threads[u]) ==> t == u)
    && (Transitioning(s) ==> exists t :: t in s.threads && Owns(s.threads[t]))
  }

  /** An exiting thread has set the flag; once it found nothing to stop or has returned, everything is closed for good. */
  ghost predicate Exits(s: Service) {
    forall t :: t in s.threads && Exiting(s.threads[t]) ==>
      s.shuttingDown && (s.threads[t].ExitEmpty? || s.threads[t].Returned? ==> Closed(s))
  }

  ghost predicate Inv(s: Service) {
    Base(s) && OneOwner(s) && Exits(s)
  }

  lemma InitialInv(s: Service)
    requires Initial(s)
    ensures Inv(s)
  {
  }

  /** A step of the owner, or one taken while nobody owns a transition. */
  lemma OwnerSteps(s: Service, s': Service, t: nat)
    requires OneOwner(s) && t in s.threads && t in s'.threads && s'.threads == s.threads[t := s'.threads[t]]
    requires Owns(s.threads[t]) || !Transitioning(s)
    requires Owns(s'.threads[t]) ==> OwnerFits(s', s'.threads[t])
    requires Transitioning(s') ==> Owns(s'.threads[t])
    ensures OneOwner(s')
  {
    hide OwnerFits, Owns;
    forall u | u in s.threads && u != t
      ensures !Owns(s'.threads[u])
    {
      NobodyElse(s, t, u);
    }
  }

  lemma NobodyElse(s: Service, t: nat, u: nat)
    requires OneOwner(s) && t in s.threads && u in s.threads && u != t && (Owns(s.threads[t]) || !Transitioning(s))
    ensures !Owns(s.threads[u])
  {
  }

  /** A step of a thread that owns nothing and changes nothing shared. */
  lemma BystanderSteps(s: Service, s': Service, t: nat)
    requires OneOwner(s) && t in s.threads && t in s'.threads && s'.threads == s.threads[t := s'.threads[t]]
    requires !Owns(s.threads[t]) && !Owns(s'.threads[t])
    requires s' == s.(threads := s'.threads, shuttingDown := s'.shuttingDown) && (s.shuttingDown ==> s'.shuttingDown)
    ensures OneOwner(s')
  {
    hide Owns;
    assert forall p :: OwnerFits(s, p) ==> OwnerFits(s', p);
    hide OwnerFits;
    if Transitioning(s') {
      var u :| u in s.threads && Owns(s.threads[u]);
      assert u in s'.threads && Owns(s'.threads[u]);
    }
  }

  lemma QuietHasNoOwner(s: Service, t: nat)
    requires OneOwner(s) && !Transitioning(s) && t in s.threads
    ensures !Owns(s.threads[t])
  {
  }

  lemma FitsOf(s: Service, t: nat)
    requires OneOwner(s) && t in s.threads && Owns(s.threads[t])
    ensures OwnerFits(s, s.threads[t])
  {
  }

  lemma LockKeeps(s: Service, step: Step, s': Service)
    requires Base(s) && OneOwner(s) && Next(s, step, s') && step.Lock?
    ensures Base(s') && OneOwner(s')
  {
    hide OneOwner;
    OwnerSteps(s, s', step.t);
  }

  lemma StopKeeps(s: Service, step: Step, s': Service)
    requires Base(s) && OneOwner(s) && Next(s, step, s') && (step.StopOld? || step.StopLocal?)
    ensures Base(s') && OneOwner(s')
  {
    FitsOf(s, step.t);
    hide OneOwner;
    OwnerSteps(s, s', step.t);
  }

  lemma StartKeeps(s: Service, step: Step, s': Service)
    requires Base(s) && OneOwner(s) && Next(s, step, s') && step.StartMade?
    ensures Base(s') && OneOwner(s')
  {
    FitsOf(s, step.t);
    hide OneOwner;
    OwnerSteps(s, s', step.t);
  }

  lemma JudgeKeeps(s: Service, step: Step, s': Service)
    requires Base(s) && OneOwner(s) && Next(s, step, s') && step.Judge?
    ensures Base(s') && OneOwner(s')
  {
    FitsOf(s, step.t);
    hide OneOwner;
    OwnerSteps(s, s', step.t);
  }

  lemma PublishKeeps(s: Service, step: Step, s': Service)
    requires Base(s) && OneOwner(s) && Next(s, step, s') && step.Publish?
    ensures Base(s') && OneOwner(s')
  {
    FitsOf(s, step.t);
    hide OneOwner;
    OwnerSteps(s, s', step.t);
  }

  lemma CloseKeeps(s: Service, step: Step, s': Service)
    requires Inv(s) && Next(s, step, s') && step.Close?
    ensures Base(s') && OneOwner(s')
  {
    if s.threads[step.t].Closing? { FitsOf(s, step.t); }
    hide OneOwner;
    OwnerSteps(s, s', step.t);
  }

  lemma ConfigureKeeps(s: Service, step: Step, s': Service)
    requires Base(s) && OneOwner(s) && Next(s, step, s') && step.Configure?
    ensures Base(s') && OneOwner(s')
  {
    if s' != s {
      forall t | t in s.threads
        ensures !Owns(s'.threads[t])
      {
        QuietHasNoOwner(s, t);
      }
    }
  }

  lemma CoreKept(s: Service, step: Step, s': Service)
    requires Inv(s) && Next(s, step, s')
    ensures Base(s') && OneOwner(s')
  {
    hide OneOwner;
    match step
    case Enter(t, call) => BystanderSteps(s, s', t);
    case Lock(_, _, _) => LockKeeps(s, step, s');
    case Close(_) => CloseKeeps(s, step, s');
    case Configure(_) => ConfigureKeeps(s, step, s');
    case StartMade(_, _, _) => StartKeeps(s, step, s');
    case Judge(_) => JudgeKeeps(s, step, s');
    case Publish(_) => PublishKeeps(s, step, s');
    case _ => StopKeeps(s, step, s');
  }

  /** Once closed, the service stays closed whatever any thread does. */
  lemma ClosedKept(s: Service, step: Step, s': Service)
    requires Closed(s) && Next(s, step, s')
    ensures Closed(s')
  {
  }

  lemma ExitFoundNothing(s: Service, t: nat, s': Service)
    requires Base(s) && OneOwner(s) && t in s.threads && s.threads[t] == Waiting(Exit) && s.shuttingDown && !Transitioning(s)
    requires s' == ExitLocked(s, t) && s'.threads[t].ExitEmpty?
    ensures Closed(s')
  {
    forall u | u in s.threads
      ensures !Owns(s'.threads[u])
    {
      QuietHasNoOwner(s, u);
    }
  }

  lemma ExitStoppedAll(s: Service, t: nat, s': Service)
    requires Base(s) && OneOwner(s) && t in s.threads && s.threads[t] == Closing(Exit) && s.shuttingDown
    requires s' == At(s.(state := Stopped), t, Returned(Exit, true))
    ensures Closed(s')
  {
    FitsOf(s, t);
    forall u | u in s.threads
      ensures !Owns(s'.threads[u])
    {
      if u != t { NobodyElse(s, t, u); }
    }
  }

  /** The exit handler's last step, or finding nothing to stop, closes the service. */
  lemma ExitCloses(s: Service, step: Step, s': Service)
    requires Inv(s) && Next(s, step, s') && !step.Configure? && step.t in s'.threads
    requires s'.threads[step.t].ExitEmpty? || (s'.threads[step.t].Returned? && s'.threads[step.t].call == Exit)
    ensures Closed(s')
  {
    var t := step.t;
    if Owns(s.threads[t]) { FitsOf(s, t); }
    hide Base, OneOwner, Closed;
    assert t in s.threads && Exiting(s.threads[t]);
    if s.threads[t].ExitEmpty? {
      ClosedKept(s, step, s');
    } else if step.Lock? {
      ExitFoundNothing(s, t, s');
    } else {
      ExitStoppedAll(s, t, s');
    }
  }

  lemma WasExiting(s: Service, step: Step, s': Service)
    requires OneOwner(s) && Exits(s) && Next(s, step, s') && !step.Configure? && Exiting(s'.threads[step.t])
    ensures s'.shuttingDown
  {
    if Owns(s.threads[step.t]) { FitsOf(s, step.t); }
    hide OneOwner, Closed;
    assert s.threads[step.t].Waiting? && s.threads[step.t].call == Exit ==> Exiting(s.threads[step.t]);
  }

  lemma ExitsKept(s: Service, step: Step, s': Service)
    requires Inv(s) && Next(s, step, s')
    ensures Exits(s')
  {
    hide Base, OneOwner, Closed;
    forall u | u in s'.threads && Exiting(s'.threads[u])
      ensures s'.shuttingDown && (s'.threads[u].ExitEmpty? || s'.threads[u].Returned? ==> Closed(s'))
    {
      if step.Configure? || u != step.t {
        assert s'.threads[u] == s.threads[u];
        if Closed(s) { ClosedKept(s, step, s'); }
      } else {
        WasExiting(s, step, s');
        if s'.threads[u].ExitEmpty? || s'.threads[u].Returned? {
          ExitCloses(s, step, s');
        }
      }
    }
  }

  lemma {:induction false} RunKeepsInv(states: seq<Service>, steps: seq<Step>, n: nat)
    requires IsRun(states, steps) && n <= |steps|
    ensures Inv(states[n])
  {
    hide Inv, Next;
    if n == 0 {
      InitialInv(states[0]);
    } else {
      RunKeepsInv(states, steps, n - 1);
      StepKeepsInv(states[n - 1], steps[n - 1], states[n]);
    }
  }

  lemma StepKeepsInv(s: Service, step: Step, s': Service)
    requires Inv(s) && Next(s, step, s')
    ensures Inv(s')
  {
    hide Next, Base, OneOwner, Exits;
    CoreKept(s, step, s');
    ExitsKept(s, step, s');
  }

  // ----- over whole runs -----

  /** At any moment at most one thread is starting or stopping the service, and the state says which. */
  lemma OneTransitionAtATime(states: seq<Service>, steps: seq<Step>, n: nat, t: nat, u: nat)
    requires IsRun(states, steps) && n <= |steps|
    requires t in states[n].threads && Owns(states[n].threads[t]) && u in states[n].threads && Owns(states[n].threads[u])
    ensures t == u && OwnsIn(states[n].threads[t], states[n].state) && Transitioning(states[n])
  {
    RunKeepsInv(states, steps, n);
    FitsOf(states[n], t);
    hide IsRun, Next, Base, Exits;
  }

  /** Between transitions exactly the runner in place is started: none leaks, and none runs on an old configuration. */
  lemma NoRunnerLeaks(states: seq<Service>, steps: seq<Step>, n: nat)
    requires IsRun(states, steps) && n <= |steps| && !Transitioning(states[n])
    ensures states[n].started == SetOf(states[n].runner)
    ensures states[n].state == Running ==> states[n].runner.Some?
    ensures states[n].runner.Some? ==> states[n].runner.value.cfg == states[n].cfg
  {
    RunKeepsInv(states, steps, n);
    hide IsRun;
  }

  /** Once an exit handler has returned, the service is stopped with no runner, for good. */
  lemma {:induction false} ExitIsFinal(states: seq<Service>, steps: seq<Step>, i: nat, t: nat, n: nat)
    requires IsRun(states, steps) && i <= n <= |steps|
    requires t in states[i].threads && states[i].threads[t].Returned? && states[i].threads[t].call == Exit
    ensures Closed(states[n])
  {
    if n == i {
      RunKeepsInv(states, steps, n);
      hide IsRun, Base, OneOwner, Closed;
    } else {
      ExitIsFinal(states, steps, i, t, n - 1);
      assert Next(states[n - 1], steps[n - 1], states[n]);
      hide IsRun, Next, Closed;
      ClosedKept(states[n - 1], steps[n - 1], states[n]);
    }
  }

  lemma FlagStays(s: Service, step: Step, s': Service)
    requires Next(s, step, s') && s.shuttingDown
    ensures s'.shuttingDown
  {
  }

  lemma {:induction false} FlagStaysSet(states: seq<Service>, steps: seq<Step>, i: nat, n: nat)
    requires IsRun(states, steps) && i <= n <= |steps| && states[i].shuttingDown
    ensures states[n].shuttingDown
  {
    if n > i {
      FlagStaysSet(states, steps, i, n - 1);
      assert Next(states[n - 1], steps[n - 1], states[n]);
      hide Next;
      FlagStays(states[n - 1], steps[n - 1], states[n]);
    }
  }

  /** After process exit began, `init` and `apply_config_now` return false and change nothing, whether they are called
      only then or were already waiting for the lock. */
  lemma LateCallsFail(states: seq<Service>, steps: seq<Step>, i: nat, n: nat, t: nat)
    requires IsRun(states, steps) && i <= n < |steps| && states[i].shuttingDown && t in states[n].threads
    ensures forall call :: steps[n] == Enter(t, call) && (call.Init? || call.Apply?) ==>
              states[n + 1] == At(states[n], t, Returned(call, false))
    ensures forall call :: states[n].threads[t] == Waiting(call) && steps[n].Lock? && steps[n].t == t && (call.Init? || call.Apply?) ==>
              states[n + 1] == At(states[n], t, Returned(call, false))
  {
    FlagStaysSet(states, steps, i, n);
    assert Next(states[n], steps[n], states[n + 1]);
  }

  predicate StepOf(step: Step, t: nat) {
    !step.Configure? && step.t == t
  }

  lemma OthersLeaveThread(s: Service, step: Step, s': Service, t: nat)
    requires Next(s, step, s') && !StepOf(step, t)
    ensures t in s.threads <==> t in s'.threads
    ensures t in s.threads ==> s'.threads[t] == s.threads[t]
  {
  }

  /** A thread gets to publish only by judging, and keeps the runner it judged good before process exit began. */
  lemma PublishingByJudge(s: Service, step: Step, s': Service, t: nat)
    requires Inv(s) && Next(s, step, s') && StepOf(step, t) && t in s'.threads && s'.threads[t].Publishing?
    ensures step == Judge(t) && t in s.threads && s.threads[t].Judging?
    ensures var p := s.threads[t];
      s'.threads[t] == Publishing(p.call, if p.ok && !s.shuttingDown then Some(p.made) else None, p.ok)
  {
    if Owns(s.threads[t]) { FitsOf(s, t); }
    hide Inv;
  }

  lemma {:induction false} JudgeBeforePublish(states: seq<Service>, steps: seq<Step>, n: nat, t: nat) returns (j: nat)
    requires IsRun(states, steps) && n <= |steps| && t in states[n].threads && states[n].threads[t].Publishing?
    ensures j < n && steps[j] == Judge(t) && forall i :: j < i < n ==> !StepOf(steps[i], t)
    ensures t in states[j].threads && states[j].threads[t].Judging?
    ensures var p := states[j].threads[t];
      states[n].threads[t] == Publishing(p.call, if p.ok && !states[j].shuttingDown then Some(p.made) else None, p.ok)
  {
    hide Next, Inv;
    assert n > 0;
    RunKeepsInv(states, steps, n - 1);
    if StepOf(steps[n - 1], t) {
      PublishingByJudge(states[n - 1], steps[n - 1], states[n], t);
      j := n - 1;
    } else {
      OthersLeaveThread(states[n - 1], steps[n - 1], states[n], t);
      j := JudgeBeforePublish(states, steps, n - 1, t);
    }
  }

  /** A started runner is in place. */
  predicate IsRunning(s: Service) {
    s.state == Running && s.runner.Some? && s.runner.value in s.started
  }

  /** What `init` or `apply_config_now` reports when it has judged and published a new runner: the runner is in place
      exactly if all went well and process exit had not begun when the thread judged it, but success is reported in the
      latter case as well. */
  lemma SuccessMeansRunning(states: seq<Service>, steps: seq<Step>, n: nat, t: nat) returns (j: nat)
    requires IsRun(states, steps) && n < |steps| && steps[n] == Publish(t)
    ensures j < n && steps[j] == Judge(t) && forall i :: j < i < n ==> !StepOf(steps[i], t)
    ensures t in states[j].threads && states[j].threads[t].Judging?
    ensures t in states[n + 1].threads && states[n + 1].threads[t].Returned?
    ensures var ok := states[j].threads[t].ok;
      var result := states[n + 1].threads[t].result;
      && (IsRunning(states[n + 1]) <==> ok && !states[j].shuttingDown)
      && (result && !IsRunning(states[n + 1]) <==> ok && states[j].shuttingDown)
  {
    assert Next(states[n], steps[n], states[n + 1]);
    j := JudgeBeforePublish(states, steps, n, t);
    NoRunnerLeaks(states, steps, n + 1);
    hide IsRun;
  }

  /** The other success, found at once under the lock, always means so. */
  lemma SuccessAtOnce(states: seq<Service>, steps: seq<Step>, n: nat, t: nat)
    requires IsRun(states, steps) && n < |steps| && steps[n].Lock? && steps[n].t == t
    requires t in states[n + 1].threads && states[n + 1].threads[t] in {Returned(Init, true), Returned(Apply, true)}
    ensures IsRunning(states[n + 1])
  {
    assert Next(states[n], steps[n], states[n + 1]);
    NoRunnerLeaks(states, steps, n + 1);
    hide IsRun;
  }

  /** When `shutdown` returns no runner is in place, unless it found the service stopped with one still there. */
  lemma ShutdownOutcome(states: seq<Service>, steps: seq<Step>, n: nat, t: nat)
    requires IsRun(states, steps) && n < |steps| && StepOf(steps[n], t)
    requires t in states[n + 1].threads && states[n + 1].threads[t] == Returned(Shutdown, true)
    ensures states[n + 1].runner.None? <==> !(steps[n].Lock? && states[n].state == Stopped && states[n].runner.Some?)
    ensures states[n + 1].runner.None? ==> states[n + 1].started == {} && states[n + 1].state != Running
  {
    assert Next(states[n], steps[n], states[n + 1]);
    RunKeepsInv(states, steps, n);
    if Owns(states[n].threads[t]) { FitsOf(states[n], t); }
    NoRunnerLeaks(states, steps, n + 1);
    hide IsRun, OneOwner, Exits;
  }

  lemma OneMoreStep(states: seq<Service>, steps: seq<Step>, step: Step, s: Service)
    requires IsRun(states, steps) && Next(states[|steps|], step, s)
    ensures IsRun(states + [s], steps + [step])
  {
    hide Next;
    var (all, every) := (states + [s], steps + [step]);
    forall i | 0 <= i < |every|
      ensures Next(all[i], every[i], all[i + 1])
    {
      if i < |steps| { assert all[i] == states[i] && every[i] == steps[i] && all[i + 1] == states[i + 1]; }
    }
  }

  /** That exception is real: when exit begins before the new runner is judged, `init` reports success and leaves the
      service stopped. */
  lemma SuccessWhileExiting(states: seq<Service>, steps: seq<Step>, t: nat, u: nat) returns (states': seq<Service>, steps': seq<Step>)
    requires IsRun(states, steps) && !states[|steps|].shuttingDown
    requires t in states[|steps|].threads && states[|steps|].threads[t].Judging? && states[|steps|].threads[t].ok
    requires u in states[|steps|].threads && MayEnter(states[|steps|].threads[u])
    ensures IsRun(states', steps') && |steps'| == |steps| + 3
    ensures t in states'[|steps'|].threads
    ensures states'[|steps'|].threads[t] == Returned(states[|steps|].threads[t].call, true)
    ensures states'[|steps'|].state == Stopped && states'[|steps'|].runner == None
  {
    var s := states[|steps|];
    var p := s.threads[t];
    var s1 := Entered(s, u, Exit);
    var s2 := Judged(s1, t, p.call, p.made, p.hasStarted, p.ok);
    var s3 := Published(s2, t, p.call, None, p.ok);
    OneMoreStep(states, steps, Enter(u, Exit), s1);
    hide IsRun;
    OneMoreStep(states + [s1], steps + [Enter(u, Exit)], Judge(t), s2);
    OneMoreStep(states + [s1] + [s2], steps + [Enter(u, Exit)] + [Judge(t)], Publish(t), s3);
    states', steps' := states + [s1] + [s2] + [s3], steps + [Enter(u, Exit)] + [Judge(t)] + [Publish(t)];
  }

  /** Two threads, one of which starts a runner that is about to be judged. */
  lemma RunnerAboutToBeJudged() returns (states: seq<Service>, steps: seq<Step>)
    ensures IsRun(states, steps) && |steps| == 3
    ensures states[3] == Service(Starting, false, None, 0, 1, {Runner(0, 0)}, map[0 := Judging(Init, Runner(0, 0), true, true), 1 := Idle])
  {
    var s0 := Service(Stopped, false, None, 0, 0, {}, map[0 := Idle, 1 := Idle]);
    var s1 := Entered(s0, 0, Init);
    var s2 := InitLocked(s1, 0, false, true);
    var s3 := MadeStarted(s2, 0, Init, Runner(0, 0), true, true);
    states, steps := [s0, s1, s2, s3], [Enter(0, Init), Lock(0, false, true), StartMade(0, true, true)];
    assert s3.threads == map[0 := Judging(Init, Runner(0, 0), true, true), 1 := Idle];
  }

  /** A whole run in which `init` reports success and the service is stopped. */
  lemma InitDuringExit() returns (states: seq<Service>, steps: seq<Step>)
    ensures IsRun(states, steps) && |steps| == 6 && 0 in states[6].threads && states[6].threads[0] == Returned(Init, true)
    ensures states[6].state == Stopped && states[6].runner == None
  {
    states, steps := RunnerAboutToBeJudged();
    hide IsRun;
    states, steps := SuccessWhileExiting(states, steps, 0, 1);
  }

  /** A whole run in which `shutdown` returns at once and leaves a runner: the runner died, and a second `init` could
      not build another. */
  lemma ShutdownLeavesRunner() returns (states: seq<Service>, steps: seq<Step>)
    ensures IsRun(states, steps) && |steps| == 9 && steps[8].Lock? && states[8].state == Stopped
    ensures 0 in states[9].threads && states[9].threads[0] == Returned(Shutdown, true) && states[9].runner == Some(Runner(0, 0))
  {
    states, steps := RunnerAboutToBeJudged();
    var s4 := Judged(states[3], 0, Init, Runner(0, 0), true, true);
    OneMoreStep(states, steps, Judge(0), s4);
    states, steps := states + [s4], steps + [Judge(0)];
    var s5 := Published(s4, 0, Init, Some(Runner(0, 0)), true);
    OneMoreStep(states, steps, Publish(0), s5);
    states, steps := states + [s5], steps + [Publish(0)];
    var s6 := Entered(s5, 0, Init);
    OneMoreStep(states, steps, Enter(0, Init), s6);
    states, steps := states + [s6], steps + [Enter(0, Init)];
    var s7 := InitLocked(s6, 0, false, false);
    OneMoreStep(states, steps, Lock(0, false, false), s7);
    states, steps := states + [s7], steps + [Lock(0, false, false)];
    var s8 := Entered(s7, 0, Shutdown);
    OneMoreStep(states, steps, Enter(0, Shutdown), s8);
    states, steps := states + [s8], steps + [Enter(0, Shutdown)];
    var s9 := ShutdownLocked(s8, 0);
    OneMoreStep(states, steps, Lock(0, false, false), s9);
    states, steps := states + [s9], steps + [Lock(0, false, false)];
  }
}
