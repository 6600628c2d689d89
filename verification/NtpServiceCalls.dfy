/** What every call of the service answers, over whole runs of any number of threads. */
module NtpServiceCalls {
  import opened NtpService

  // ----- runner ids -----

  function IdOf(r: Option<Runner>): Option<nat> {
    if r.Some? then Some(r.value.id) else None
  }

  /** A runner with this id is in place, started, or in some thread's hands. */
  ghost predicate Mentions(s: Service, id: nat) {
    || IdOf(s.runner) == Some(id)
    || (exists r :: r in s.started && r.id == id)
    || (exists t :: t in s.threads && (IdOf(InHand(s.threads[t])) == Some(id) || IdOf(Coming(s.threads[t])) == Some(id)))
  }

  lemma MentionedIds(s: Service, id: nat)
    requires Inv(s) && Mentions(s, id)
    ensures id < s.nextRunner
  {
    if t :| t in s.threads && (IdOf(InHand(s.threads[t])) == Some(id) || IdOf(Coming(s.threads[t])) == Some(id)) {
      FitsOf(s, t);
    } else if r :| r in s.started && r.id == id {
      StartedIds(s, r);
    }
  }

  lemma StartedIds(s: Service, r: Runner)
    requires Inv(s) && r in s.started
    ensures r.id < s.nextRunner
  {
    if Transitioning(s) {
      var t :| t in s.threads && Owns(s.threads[t]);
      FitsOf(s, t);
    }
  }

  lemma {:induction false} IdsGrow(states: seq<Service>, steps: seq<Step>, m: nat, n: nat)
    requires IsRun(states, steps) && m <= n <= |steps|
    ensures states[m].nextRunner <= states[n].nextRunner
  {
    if m < n {
      IdsGrow(states, steps, m, n - 1);
      assert Next(states[n - 1], steps[n - 1], states[n]);
    }
  }

  /** No runner up to and including state `n` has this id. */
  ghost predicate IsNew(states: seq<Service>, n: nat, id: nat)
    requires n < |states|
  {
    forall m :: 0 <= m <= n ==> !Mentions(states[m], id)
  }

  lemma NextIsNew(states: seq<Service>, steps: seq<Step>, n: nat)
    requires IsRun(states, steps) && n <= |steps|
    ensures IsNew(states, n, states[n].nextRunner)
  {
    hide Next, Inv, Mentions;
    forall m | 0 <= m <= n
      ensures !Mentions(states[m], states[n].nextRunner)
    {
      IdsGrow(states, steps, m, n);
      RunKeepsInv(states, steps, m);
      if Mentions(states[m], states[n].nextRunner) { MentionedIds(states[m], states[n].nextRunner); }
    }
  }

  // ----- entering and locking -----

  /** Only this thread moved; of the rest of the service at most the state, the flag, the runner in place and the next
      id changed. */
  ghost predicate OnlyThread(s: Service, s': Service, t: nat) {
    t in s'.threads && s'.threads == s.threads[t := s'.threads[t]] && s'.cfg == s.cfg && s'.started == s.started
  }

  /** A call that enters waits for the lock, unless it is a start after process exit began; the exit handler sets the flag. */
  lemma EnterAnswers(states: seq<Service>, steps: seq<Step>, n: nat, t: nat, call: Call)
    requires IsRun(states, steps) && n < |steps| && steps[n] == Enter(t, call)
    ensures var (s, s') := (states[n], states[n + 1]);
      && OnlyThread(s, s', t) && s'.state == s.state && s'.runner == s.runner && s'.nextRunner == s.nextRunner
      && s'.shuttingDown == (s.shuttingDown || call.Exit?)
      && s'.threads[t] == if s.shuttingDown && (call.Init? || call.Apply?) then Returned(call, false) else Waiting(call)
  {
    assert Next(states[n], steps[n], states[n + 1]);
  }

  /** The thread holds a runner of a new id on the current configuration, to be started for `call`. */
  ghost predicate GoesOn(states: seq<Service>, n: nat, t: nat, call: Call)
    requires n + 1 < |states|
  {
    var (s, s') := (states[n], states[n + 1]);
    t in s'.threads && s'.state == Starting
    && Coming(s'.threads[t]).Some?
    && var made := Coming(s'.threads[t]).value;
       made.cfg == s.cfg && IsNew(states, n, made.id) && made.id < s'.nextRunner
       && (s'.threads[t] == StartingMade(call, made)
           || (call.Apply? && s.runner.Some? && s'.threads[t] == StoppingOld(s.runner.value, made)))
  }

  /** `init` under the lock, before process exit: on a live runner it returns true at once; if none could be built, false;
      otherwise it goes on with a new runner. Nothing else changes. */
  lemma InitAnswers(states: seq<Service>, steps: seq<Step>, n: nat, t: nat, alive: bool, built: bool)
    requires IsRun(states, steps) && n < |steps| && steps[n] == Lock(t, alive, built)
    requires t in states[n].threads && states[n].threads[t] == Waiting(Init) && !states[n].shuttingDown
    ensures var (s, s') := (states[n], states[n + 1]);
      var runs := s.state == Running && s.runner.Some? && alive;
      && OnlyThread(s, s', t) && s'.runner == s.runner && !s'.shuttingDown
      && (s'.threads[t] == Returned(Init, true) <==> runs)
      && (s'.threads[t] == Returned(Init, false) <==> !runs && !built)
      && (runs ==> s'.state == Running && s'.nextRunner == s.nextRunner)
      && (!runs && !built ==> s'.state == Stopped && s'.nextRunner == s.nextRunner)
      && (!runs && built ==> GoesOn(states, n, t, Init))
  {
    assert Next(states[n], steps[n], states[n + 1]);
    NextIsNew(states, steps, n);
    hide IsRun, IsNew;
  }

  /** `apply_config_now` never returns true at once: if no runner could be built it returns false and the old one, if it
      was alive, goes on running; otherwise it goes on with a new runner, stopping the old one first. */
  lemma ApplyAnswers(states: seq<Service>, steps: seq<Step>, n: nat, t: nat, alive: bool, built: bool)
    requires IsRun(states, steps) && n < |steps| && steps[n] == Lock(t, alive, built)
    requires t in states[n].threads && states[n].threads[t] == Waiting(Apply) && !states[n].shuttingDown
    ensures var (s, s') := (states[n], states[n + 1]);
      && OnlyThread(s, s', t) && !s'.shuttingDown
      && (s'.threads[t].Returned? <==> !built)
      && (!built ==> s'.threads[t] == Returned(Apply, false) && s'.runner == s.runner && s'.nextRunner == s.nextRunner
                     && s'.state == if s.state == Running && s.runner.Some? && alive then Running else Stopped)
      && (built ==> GoesOn(states, n, t, Apply) && s'.runner == None && (s.runner.Some? <==> s'.threads[t].StoppingOld?))
  {
    assert Next(states[n], steps[n], states[n + 1]);
    NextIsNew(states, steps, n);
    hide IsRun, IsNew;
  }

  /** `shutdown` and the exit handler take the runner in place into their hands; `shutdown` returns at once if there is
      none or the service is stopped, the exit handler closes the service. */
  lemma StopAnswers(states: seq<Service>, steps: seq<Step>, n: nat, t: nat, call: Call)
    requires IsRun(states, steps) && n < |steps| && steps[n].Lock? && steps[n].t == t
    requires t in states[n].threads && states[n].threads[t] == Waiting(call) && (call.Shutdown? || call.Exit?)
    ensures var (s, s') := (states[n], states[n + 1]);
      && OnlyThread(s, s', t) && s'.shuttingDown == s.shuttingDown && s'.nextRunner == s.nextRunner
      && if s.runner.Some? && (call.Exit? || s.state != Stopped) then
           s'.runner == None && s'.state == Stopping && s'.threads[t] == StoppingLocal(call, s.runner.value)
         else
           s'.runner == s.runner && s'.state == Stopped
           && s'.threads[t] == if call.Exit? then ExitEmpty else Returned(Shutdown, true)
  {
    assert Next(states[n], steps[n], states[n + 1]);
    RunKeepsInv(states, steps, n);
    hide IsRun, OneOwner, Exits;
  }

  // ----- from the lock to the answer -----

  lemma {:induction false} StartBeforeJudge(states: seq<Service>, steps: seq<Step>, n: nat, t: nat) returns (k: nat)
    requires IsRun(states, steps) && n <= |steps| && t in states[n].threads && states[n].threads[t].Judging?
    ensures k < n && steps[k].StartMade? && steps[k].t == t && forall i :: k < i < n ==> !StepOf(steps[i], t)
    ensures t in states[k].threads && states[k].threads[t].StartingMade?
    ensures var p := states[k].threads[t];
      states[n].threads[t] == Judging(p.call, p.made, steps[k].hasStarted, steps[k].hasStarted && steps[k].ok)
  {
    assert n > 0;
    assert Next(states[n - 1], steps[n - 1], states[n]);
    if StepOf(steps[n - 1], t) {
      k := n - 1;
    } else {
      hide Next;
      OthersLeaveThread(states[n - 1], steps[n - 1], states[n], t);
      k := StartBeforeJudge(states, steps, n - 1, t);
    }
  }

  predicate IsStarting(p: Phase) {
    p.StoppingOld? || (p.StartingMade? && (p.call.Init? || p.call.Apply?))
  }

  function CallOf(p: Phase): Call
    requires IsStarting(p)
  {
    if p.StoppingOld? then Apply else p.call
  }

  lemma StartingByStep(s: Service, step: Step, s': Service, t: nat)
    requires Next(s, step, s') && StepOf(step, t) && t in s'.threads && IsStarting(s'.threads[t])
    ensures t in s.threads
    ensures (step.Lock? && step.built && s.threads[t] == Waiting(CallOf(s'.threads[t])) && !s.shuttingDown
             && s'.threads[t].made == Runner(s.nextRunner, s.cfg))
            || (s.threads[t].StoppingOld? && CallOf(s'.threads[t]) == Apply && s'.threads[t].made == s.threads[t].made)
  {
  }

  lemma {:induction false} LockBeforeStart(states: seq<Service>, steps: seq<Step>, n: nat, t: nat) returns (l: nat)
    requires IsRun(states, steps) && n <= |steps| && t in states[n].threads && IsStarting(states[n].threads[t])
    ensures l < n && steps[l].Lock? && steps[l].t == t && steps[l].built && t in states[l].threads
    ensures states[l].threads[t] == Waiting(CallOf(states[n].threads[t])) && !states[l].shuttingDown
    ensures states[n].threads[t].made == Runner(states[l].nextRunner, states[l].cfg)
    ensures forall i :: l < i <= n ==> t in states[i].threads && IsStarting(states[i].threads[t])
  {
    assert n > 0;
    assert Next(states[n - 1], steps[n - 1], states[n]);
    hide Next;
    if StepOf(steps[n - 1], t) {
      StartingByStep(states[n - 1], steps[n - 1], states[n], t);
      if states[n - 1].threads[t].Waiting? {
        l := n - 1;
      } else {
        l := LockBeforeStart(states, steps, n - 1, t);
      }
    } else {
      OthersLeaveThread(states[n - 1], steps[n - 1], states[n], t);
      l := LockBeforeStart(states, steps, n - 1, t);
    }
  }

  lemma OnlyTwoCallsStart(s: Service, t: nat)
    requires Inv(s) && t in s.threads && s.threads[t].StartingMade?
    ensures IsStarting(s.threads[t])
  {
    FitsOf(s, t);
  }

  /** Every start that is published took the lock at `l` before process exit began, started its runner at `k`, judged it at
      `j`. It reports true exactly if the runner started and its first measurement succeeded; if so, and process exit
      had not begun at `j`, that runner is in place: one of an id never seen up to `l`, on the configuration of then. */
  lemma PublishedStart(states: seq<Service>, steps: seq<Step>, n: nat, t: nat) returns (l: nat, k: nat, j: nat)
    requires IsRun(states, steps) && n < |steps| && steps[n] == Publish(t)
    ensures l < k < j < n && steps[l].Lock? && steps[l].t == t && steps[l].built && !states[l].shuttingDown
    ensures steps[k].StartMade? && steps[k].t == t && steps[j] == Judge(t)
    ensures t in states[l].threads && states[l].threads[t] in {Waiting(Init), Waiting(Apply)}
    ensures t in states[n + 1].threads
    ensures var good := steps[k].hasStarted && steps[k].ok;
      && states[n + 1].threads[t] == Returned(states[l].threads[t].call, good)
      && (IsRunning(states[n + 1]) <==> good && !states[j].shuttingDown)
      && (IsRunning(states[n + 1]) ==> states[n + 1].runner.value.cfg == states[l].cfg && IsNew(states, l, states[n + 1].runner.value.id))
      && (!IsRunning(states[n + 1]) ==> states[n + 1].state == Stopped && states[n + 1].runner == None)
  {
    assert Next(states[n], steps[n], states[n + 1]);
    j := JudgeBeforePublish(states, steps, n, t);
    k := StartBeforeJudge(states, steps, j, t);
    RunKeepsInv(states, steps, k);
    OnlyTwoCallsStart(states[k], t);
    l := LockBeforeStart(states, steps, k, t);
    NextIsNew(states, steps, l);
    NoRunnerLeaks(states, steps, n + 1);
    hide IsRun, Inv, IsNew;
  }

  /** So an `apply_config_now` that reports true has replaced the runner, unless process exit intervened. */
  lemma ApplySucceeds(states: seq<Service>, steps: seq<Step>, n: nat, t: nat) returns (l: nat)
    requires IsRun(states, steps) && n < |steps| && StepOf(steps[n], t) && t in states[n + 1].threads
    requires states[n + 1].threads[t] == Returned(Apply, true)
    ensures l < n && steps[l].Lock? && steps[l].t == t && t in states[l].threads && states[l].threads[t] == Waiting(Apply)
    ensures steps[n] == Publish(t)
    ensures if IsRunning(states[n + 1]) then IsNew(states, l, states[n + 1].runner.value.id) else states[n + 1].shuttingDown
  {
    ReturnsByPublish(states, steps, n, t);
    var k, j;
    l, k, j := PublishedStart(states, steps, n, t);
    if states[j].shuttingDown { FlagStaysSet(states, steps, j, n + 1); }
    hide IsRun, IsNew;
  }

  /** Only `shutdown` and the exit handler stop a runner to close the service. */
  predicate StopsToClose(s: Service) {
    forall t :: t in s.threads && (s.threads[t].StoppingLocal? || s.threads[t].Closing?) ==>
      s.threads[t].call.Shutdown? || s.threads[t].call.Exit?
  }

  lemma StopsToCloseStep(s: Service, step: Step, s': Service)
    requires Next(s, step, s') && StopsToClose(s)
    ensures StopsToClose(s')
  {
  }

  lemma {:induction false} StopsToCloseOverRun(states: seq<Service>, steps: seq<Step>, n: nat)
    requires IsRun(states, steps) && n <= |steps|
    ensures StopsToClose(states[n])
  {
    if n > 0 {
      StopsToCloseOverRun(states, steps, n - 1);
      assert Next(states[n - 1], steps[n - 1], states[n]);
      hide Next;
      StopsToCloseStep(states[n - 1], steps[n - 1], states[n]);
    }
  }

  lemma ReturnsByPublish(states: seq<Service>, steps: seq<Step>, n: nat, t: nat)
    requires IsRun(states, steps) && n < |steps| && StepOf(steps[n], t) && t in states[n + 1].threads
    requires states[n + 1].threads[t] == Returned(Apply, true)
    ensures steps[n] == Publish(t)
  {
    assert Next(states[n], steps[n], states[n + 1]);
    StopsToCloseOverRun(states, steps, n);
    hide IsRun;
  }
}
