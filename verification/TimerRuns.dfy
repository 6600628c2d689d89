/** Safety of the timer scheduler over whole runs. */
module TimerRuns {
  import opened TimerSpec
  import opened TimerProofs

  // ----- every reachable state -----

  lemma FlightIsRecord(s: Scheduler, k: nat)
    requires k < |s.inFlight|
    ensures s.inFlight[k].entry in Records(s)
  {
    assert FlightEntries(s.inFlight)[k] in multiset(FlightEntries(s.inFlight));
  }

  /** Queue entries of one timer have distinct generations, none above the timer's own. */
  lemma QueuedGenerations(states: seq<Scheduler>, steps: seq<Step>, n: nat, i: nat, j: nat)
    requires IsRun(states, steps) && n <= |steps| && i < j < |states[n].queue|
    ensures var s := states[n];
      var (x, y) := (s.queue[i], s.queue[j]);
      x.id in s.timers && 1 <= x.generation <= s.timers[x.id].generation && (x.id == y.id ==> x.generation != y.generation)
  {
    RunKeepsInv(states, steps, n);
    hide IsRun;
    var s := states[n];
    assert s.queue[i] in Records(s) && s.queue[j] in Records(s);
    assert Records(s)[s.queue[i]] >= multiset(s.queue)[s.queue[i]];
    RepeatedElement(s.queue, i, j);
  }

  lemma RepeatedElement<T>(q: seq<T>, i: nat, j: nat)
    requires i < j < |q|
    ensures q[i] == q[j] ==> multiset(q)[q[i]] >= 2
  {
    assert q == q[..j] + [q[j]] + q[j + 1..];
    assert q[i] == q[..j][i];
  }

  /** A registered timer is active exactly when one record of its generation exists, queued or in flight but not both. */
  lemma ActiveMeansOneRecord(states: seq<Scheduler>, steps: seq<Step>, n: nat, id: nat)
    requires IsRun(states, steps) && n <= |steps| && id in states[n].timers && states[n].timers[id].registered
    ensures var s := states[n];
      if s.timers[id].active then
        exists x :: IsCurrent(s, id, x) && multiset(s.queue)[x] + multiset(FlightEntries(s.inFlight))[x] == 1
                    && forall y :: IsCurrent(s, id, y) ==> y == x
      else
        forall x :: !IsCurrent(s, id, x)
  {
    RunKeepsInv(states, steps, n);
    hide IsRun, FlightEntries;
    var s := states[n];
    if s.timers[id].active {
      var x :| IsCurrent(s, id, x);
      assert Records(s)[x] == multiset(s.queue)[x] + multiset(FlightEntries(s.inFlight))[x];
      assert forall y :: IsCurrent(s, id, y) ==> y == x;
    }
  }

  lemma StepKeepsTimers(s: Scheduler, step: Step, s': Scheduler)
    requires Next(s, step, s')
    ensures s.timers.Keys <= s'.timers.Keys && s.nextId <= s'.nextId
    ensures step == Create ==> s.nextId in s'.timers
  {
  }

  /** An id handed out by `Create` names no timer made before, and keeps naming the one it made. */
  lemma {:induction false} IdsNeverReused(states: seq<Scheduler>, steps: seq<Step>, i: nat, m: nat)
    requires IsRun(states, steps) && i < |steps| && steps[i] == Create && m <= |steps|
    ensures m <= i ==> states[i].nextId !in states[m].timers
    ensures m > i ==> states[i].nextId in states[m].timers && states[i].nextId < states[m].nextId
    decreases if m <= i then i - m else m
  {
    hide Next;
    if m == i {
      RunKeepsInv(states, steps, i);
      assert states[i].nextId !in states[i].timers;
    } else if m < i {
      IdsNeverReused(states, steps, i, m + 1);
      StepKeepsTimers(states[m], steps[m], states[m + 1]);
    } else {
      StepKeepsTimers(states[m - 1], steps[m - 1], states[m]);
      if m - 1 > i { IdsNeverReused(states, steps, i, m - 1); }
      RunKeepsInv(states, steps, m);
      assert states[i].nextId < states[m].nextId;
    }
  }

  // ----- one collecting pass -----

  /** One pass picks each timer at most once, whatever its interval. */
  lemma DueOncePerTimer(s: Scheduler, now: int, due: seq<Entry>, i: nat, j: nat)
    requires Inv(s) && IsCollection(s, now, due) && i < j < |due|
    ensures due[i].id != due[j].id
  {
    DueIsLive(s, now, due, i);
    DueIsLive(s, now, due, j);
    DueWasQueued(s, now, due, due[i]);
    RepeatedElement(due, i, j);
    hide IsCollection, Records;
  }

  lemma DueIsLive(s: Scheduler, now: int, due: seq<Entry>, i: nat)
    requires IsCollection(s, now, due) && i < |due|
    ensures IsLive(s.timers, due[i]) && due[i].fireTime <= now && due[i] in Records(s)
  {
    assert due[i] in multiset(due);
    KeepMultiset(s.queue, DueAndLive(s.timers, now), due[i]);
    hide FlightEntries, Keep;
  }

  lemma DueWasQueued(s: Scheduler, now: int, due: seq<Entry>, x: Entry)
    requires IsCollection(s, now, due)
    ensures multiset(due)[x] <= Records(s)[x]
  {
    KeepMultiset(s.queue, DueAndLive(s.timers, now), x);
    hide FlightEntries;
  }

  // ----- a single executor -----

  /** Only one thread ever executes timers: the worker, or whoever calls `process`. */
  predicate Solo(steps: seq<Step>) {
    forall i :: 0 <= i < |steps| && steps[i].Collect? ==> steps[i].executor == 0
  }

  predicate HasFlight(s: Scheduler, id: nat) {
    exists i :: 0 <= i < |s.inFlight| && s.inFlight[i].entry.id == id
  }

  /** With one executor the batch in flight names each timer once, and `running` says which. */
  ghost predicate SoloInv(s: Scheduler) {
    && (forall i :: 0 <= i < |s.inFlight| ==> s.inFlight[i].executor == 0 && s.inFlight[i].entry.id in s.timers)
    && (forall i, j :: 0 <= i < j < |s.inFlight| ==> s.inFlight[i].entry.id != s.inFlight[j].entry.id)
    && (forall id :: id in s.timers ==> (s.timers[id].running <==> HasFlight(s, id)))
  }

  lemma SoloCollected(s: Scheduler, now: int, due: seq<Entry>)
    requires Inv(s) && SoloInv(s) && |s.inFlight| == 0 && IsCollection(s, now, due)
    ensures SoloInv(Collected(s, 0, now, due))
  {
    hide Inv, IsCollection, Collected, Records;
    CollectedFields(s, now, due);
    forall i, j | 0 <= i < j < |due|
      ensures due[i].id != due[j].id
    {
      DueOncePerTimer(s, now, due, i, j);
    }
    forall i | 0 <= i < |due|
      ensures due[i].id in s.timers
    {
      DueIsLive(s, now, due, i);
    }
    FreshBatch(s, Collected(s, 0, now, due), due);
  }

  lemma FreshBatch(s: Scheduler, s': Scheduler, due: seq<Entry>)
    requires SoloInv(s) && |s.inFlight| == 0
    requires |s'.inFlight| == |due| && forall i :: 0 <= i < |due| ==> s'.inFlight[i] == Flight(0, due[i], false)
    requires s'.timers.Keys == s.timers.Keys
    requires forall id :: id in s.timers ==> (s'.timers[id].running <==> s.timers[id].running || exists x :: x in due && x.id == id)
    requires forall i, j :: 0 <= i < j < |due| ==> due[i].id != due[j].id
    requires forall i :: 0 <= i < |due| ==> due[i].id in s.timers
    ensures SoloInv(s')
  {
    forall id | id in s.timers
      ensures s'.timers[id].running <==> HasFlight(s', id)
    {
      if x :| x in due && x.id == id {
        var i :| 0 <= i < |due| && due[i] == x;
        assert s'.inFlight[i].entry.id == id;
      }
    }
  }

  lemma CollectedFields(s: Scheduler, now: int, due: seq<Entry>)
    requires |s.inFlight| == 0
    ensures var s' := Collected(s, 0, now, due);
      && |s'.inFlight| == |due| && (forall i :: 0 <= i < |due| ==> s'.inFlight[i] == Flight(0, due[i], false))
      && s'.timers.Keys == s.timers.Keys
      && forall id :: id in s.timers ==> (s'.timers[id].running <==> s.timers[id].running || exists x :: x in due && x.id == id)
  {
    hide NotDue;
  }

  lemma SoloFinalized(s: Scheduler, k: nat)
    requires SoloInv(s) && IsHead(s, k) && s.inFlight[k].entry.id in s.timers
    ensures k == 0 && SoloInv(Finalized(s, k))
  {
    assert k == 0 by { assert s.inFlight[0].executor == s.inFlight[k].executor; }
    FinalizedFields(s, k);
    hide Finalized, HasFlight;
    var s' := Finalized(s, k);
    assert s'.inFlight == s.inFlight[1..];
    forall id | id in s.timers
      ensures s'.timers[id].running <==> HasFlight(s', id)
    {
      TailFlight(s, s', id);
    }
  }

  lemma TailFlight(s: Scheduler, s': Scheduler, id: nat)
    requires |s.inFlight| > 0 && s'.inFlight == s.inFlight[1..]
    requires forall i, j :: 0 <= i < j < |s.inFlight| ==> s.inFlight[i].entry.id != s.inFlight[j].entry.id
    ensures HasFlight(s', id) <==> HasFlight(s, id) && id != s.inFlight[0].entry.id
  {
    if id != s.inFlight[0].entry.id && HasFlight(s, id) {
      var i :| 0 <= i < |s.inFlight| && s.inFlight[i].entry.id == id;
      assert s'.inFlight[i - 1].entry.id == id;
    }
    assert forall i :: 0 <= i < |s'.inFlight| ==> s'.inFlight[i] == s.inFlight[i + 1];
  }

  lemma FinalizedFields(s: Scheduler, k: nat)
    requires k < |s.inFlight| && s.inFlight[k].entry.id in s.timers
    ensures var s' := Finalized(s, k);
      s'.inFlight == s.inFlight[..k] + s.inFlight[k + 1..] && s'.timers.Keys == s.timers.Keys
      && forall id :: id in s.timers ==> s'.timers[id].running == (s.timers[id].running && id != s.inFlight[k].entry.id)
  {
  }

  lemma FinalizedTimer(s: Scheduler, k: nat, id: nat)
    requires k < |s.inFlight| && s.inFlight[k].entry.id in s.timers && id in s.timers
    ensures var s' := Finalized(s, k);
      id in s'.timers && s'.timers[id].hasCallback == s.timers[id].hasCallback
      && s'.timers[id].registered == s.timers[id].registered && s'.timers[id].generation >= s.timers[id].generation
      && s'.timers[id].singleShot == s.timers[id].singleShot && s'.timers[id].intervalMs == s.timers[id].intervalMs
      && s'.timers[id].active == (s.timers[id].active && !(id == s.inFlight[k].entry.id && s.timers[id].singleShot))
  {
    hide RemoveAt;
  }

  lemma SameFlights(s: Scheduler, s': Scheduler)
    requires SoloInv(s) && |s'.inFlight| == |s.inFlight|
    requires forall i :: 0 <= i < |s.inFlight| ==> s'.inFlight[i] == s.inFlight[i].(begun := s'.inFlight[i].begun)
    requires s.timers.Keys <= s'.timers.Keys
    requires forall id :: id in s'.timers ==> s'.timers[id].running == (id in s.timers && s.timers[id].running)
    ensures SoloInv(s')
  {
    forall id | id in s'.timers
      ensures s'.timers[id].running <==> HasFlight(s', id)
    {
      if HasFlight(s', id) {
        var i :| 0 <= i < |s'.inFlight| && s'.inFlight[i].entry.id == id;
        assert s.inFlight[i].entry.id == id;
      }
      assert forall i :: 0 <= i < |s.inFlight| ==> s.inFlight[i].entry.id == s'.inFlight[i].entry.id;
    }
  }

  lemma SoloStep(s: Scheduler, step: Step, s': Scheduler)
    requires Inv(s) && SoloInv(s) && Next(s, step, s')
    requires step.Collect? ==> step.executor == 0
    ensures SoloInv(s')
  {
    hide SoloInv, Inv, IsCollection, Collected, Finalized;
    if step.Collect? {
      if |s.inFlight| > 0 { SoloHead(s); }
      SoloCollected(s, step.now, step.due);
    } else if step.Finalize? {
      SoloFinalized(s, step.k);
    } else {
      assert s.nextId !in s.timers by { FreshId(s); }
      SameFlights(s, s');
    }
  }

  lemma SoloHead(s: Scheduler)
    requires SoloInv(s) && |s.inFlight| > 0
    ensures s.inFlight[0].executor == 0
  {
  }

  lemma FreshId(s: Scheduler)
    requires Inv(s)
    ensures s.nextId !in s.timers
  {
    hide Records;
  }

  lemma {:induction false} SoloRun(states: seq<Scheduler>, steps: seq<Step>, n: nat)
    requires IsRun(states, steps) && Solo(steps) && n <= |steps|
    ensures Inv(states[n]) && SoloInv(states[n])
  {
    RunKeepsInv(states, steps, n);
    hide Inv, Next;
    if n > 0 {
      hide SoloInv;
      SoloRun(states, steps, n - 1);
      SoloStep(states[n - 1], steps[n - 1], states[n]);
    }
  }

  // ----- stop and wait -----

  predicate Starts(step: Step, id: nat) {
    step.Start? && step.id == id
  }

  /** An executor comes to a record of the timer: it copies the callback and runs it, if there is one. */
  predicate Handles(s: Scheduler, step: Step, id: nat) {
    step.Begin? && step.k < |s.inFlight| && s.inFlight[step.k].entry.id == id
  }

  predicate BeginsCallback(s: Scheduler, step: Step, id: nat) {
    Handles(s, step, id) && id in s.timers && s.timers[id].hasCallback
  }

  /** The timer is inactive and no record of it in flight has its callback still to come. */
  predicate Quiet(s: Scheduler, id: nat) {
    id in s.timers && !s.timers[id].active
    && forall i :: 0 <= i < |s.inFlight| && s.inFlight[i].entry.id == id ==> s.inFlight[i].begun
  }

  lemma InactiveUntilStart(s: Scheduler, step: Step, s': Scheduler, id: nat)
    requires Next(s, step, s') && !Starts(step, id) && id in s.timers && !s.timers[id].active
    ensures id in s'.timers && !s'.timers[id].active
  {
    hide NotDue, Flights, FlightEntries, IsCollection;
  }

  lemma QuietUntilStart(s: Scheduler, step: Step, s': Scheduler, id: nat)
    requires Next(s, step, s') && !Starts(step, id) && Quiet(s, id)
    ensures Quiet(s', id) && !Handles(s, step, id)
  {
    InactiveUntilStart(s, step, s', id);
    if step.Collect? {
      forall i | 0 <= i < |step.due|
        ensures step.due[i].id != id
      {
        DueIsLive(s, step.now, step.due, i);
      }
      hide NotDue, IsCollection, MarkRunning;
    }
  }

  lemma {:induction false} InactiveOverRun(states: seq<Scheduler>, steps: seq<Step>, id: nat, i: nat, j: nat)
    requires Linked(states, steps) && i < j <= |steps| && steps[i] == Stop(id)
    requires forall m :: i < m < j ==> !Starts(steps[m], id)
    ensures id in states[j].timers && !states[j].timers[id].active
  {
    if j > i + 1 {
      InactiveOverRun(states, steps, id, i, j - 1);
      assert Next(states[j - 1], steps[j - 1], states[j]);
      hide Next, Linked;
      InactiveUntilStart(states[j - 1], steps[j - 1], states[j], id);
    } else {
      assert Next(states[i], steps[i], states[j]);
    }
  }

  lemma {:induction false} QuietOverRun(states: seq<Scheduler>, steps: seq<Step>, id: nat, j: nat, m: nat)
    requires Linked(states, steps) && j <= m < |steps| && Quiet(states[j], id)
    requires forall n :: j <= n <= m ==> !Starts(steps[n], id)
    ensures Quiet(states[m], id) && !Handles(states[m], steps[m], id)
  {
    hide Next, Quiet;
    if m > j {
      QuietOverRun(states, steps, id, j, m - 1);
      QuietUntilStart(states[m - 1], steps[m - 1], states[m], id);
    }
    QuietUntilStart(states[m], steps[m], states[m + 1], id);
  }

  /** `stop_and_wait` with a single executor: it stops the timer at step `i` and returns once `running` reads
      false at state `j`; from then on no record of the timer is handled, so no callback begins, before it is started
      again. */
  lemma StopAndWait(states: seq<Scheduler>, steps: seq<Step>, id: nat, i: nat, j: nat, m: nat)
    requires IsRun(states, steps) && Solo(steps)
    requires i < j <= m < |steps| && steps[i] == Stop(id) && id in states[j].timers && !states[j].timers[id].running
    requires forall n :: i < n <= m ==> !Starts(steps[n], id)
    ensures !Handles(states[m], steps[m], id)
  {
    SoloRun(states, steps, j);
    InactiveOverRun(states, steps, id, i, j);
    hide Next, Inv, IsRun;
    assert !HasFlight(states[j], id);
    QuietOverRun(states, steps, id, j, m);
  }

  // ----- plain stop -----

  /** Some continuation without a new start begins the timer's callback. */
  ghost predicate CanStillBegin(s: Scheduler, id: nat) {
    exists states, steps :: Linked(states, steps) && states[0] == s && |steps| > 0
                            && (forall n :: 0 <= n < |steps| ==> !Starts(steps[n], id))
                            && BeginsCallback(states[|steps| - 1], steps[|steps| - 1], id)
  }

  predicate Waits(s: Scheduler, id: nat, k: nat) {
    k < |s.inFlight| && s.inFlight[k].entry.id == id && !s.inFlight[k].begun
  }

  ghost predicate Known(s: Scheduler) {
    forall i :: 0 <= i < |s.inFlight| ==> s.inFlight[i].entry.id in s.timers
  }

  /** The record the executor of record `k` handles next. */
  function Head(f: seq<Flight>, k: nat): (h: nat)
    requires k < |f|
    ensures h <= k && f[h].executor == f[k].executor
    ensures forall i :: 0 <= i < h ==> f[i].executor != f[h].executor
  {
    if k == 0 || f[0].executor == f[k].executor then 0 else 1 + Head(f[1..], k - 1)
  }

  lemma Prepend(s: Scheduler, step: Step, states: seq<Scheduler>, steps: seq<Step>)
    requires Linked(states, steps) && Next(s, step, states[0])
    ensures Linked([s] + states, [step] + steps)
  {
    hide Next;
    var all, every := [s] + states, [step] + steps;
    forall i | 0 <= i < |every|
      ensures Next(all[i], every[i], all[i + 1])
    {
      if i > 0 { assert all[i] == states[i - 1] && every[i] == steps[i - 1] && all[i + 1] == states[i]; }
    }
  }

  lemma CanBeginAfter(s: Scheduler, step: Step, s': Scheduler, id: nat)
    requires Next(s, step, s') && !step.Start? && CanStillBegin(s', id)
    ensures CanStillBegin(s, id)
  {
    hide Next;
    var states, steps :| Linked(states, steps) && states[0] == s' && |steps| > 0
                         && (forall n :: 0 <= n < |steps| ==> !Starts(steps[n], id))
                         && BeginsCallback(states[|steps| - 1], steps[|steps| - 1], id);
    Prepend(s, step, states, steps);
    var all, every := [s] + states, [step] + steps;
    assert all[|every| - 1] == states[|steps| - 1] && every[|every| - 1] == steps[|steps| - 1];
    assert forall n :: 0 <= n < |every| ==> !Starts(every[n], id);
  }

  lemma BeginsNow(s: Scheduler, id: nat, k: nat)
    requires Waits(s, id, k) && IsHead(s, k) && id in s.timers && s.timers[id].hasCallback
    ensures CanStillBegin(s, id)
  {
    var s' := Begun(s, k);
    var states, steps := [s, s'], [Begin(k)];
    assert Linked(states, steps);
    assert BeginsCallback(states[|steps| - 1], steps[|steps| - 1], id);
  }

  /** Executors can always work their way to a waiting record. */
  lemma {:induction false} CallbackCanBegin(s: Scheduler, id: nat, k: nat)
    requires Waits(s, id, k) && Known(s) && id in s.timers && s.timers[id].hasCallback
    ensures CanStillBegin(s, id)
    decreases k, !s.inFlight[Head(s.inFlight, k)].begun
  {
    hide CanStillBegin, Finalized, Head, RemoveAt, Created, Started, Stopped, Unregistered, Collected, IsCollection;
    var h := Head(s.inFlight, k);
    if h == k {
      BeginsNow(s, id, k);
    } else if s.inFlight[h].begun {
      var s' := Finalized(s, h);
      FinalizedFields(s, h);
      FinalizedTimer(s, h, id);
      assert s'.inFlight[k - 1] == s.inFlight[k];
      CallbackCanBegin(s', id, k - 1);
      CanBeginAfter(s, Finalize(h), s', id);
    } else {
      var s' := Begun(s, h);
      SameHead(s.inFlight, s'.inFlight, k);
      CallbackCanBegin(s', id, k);
      CanBeginAfter(s, Begin(h), s', id);
    }
  }

  lemma {:induction false} SameHead(f: seq<Flight>, g: seq<Flight>, k: nat)
    requires k < |f| == |g| && forall i :: 0 <= i < |f| ==> g[i].executor == f[i].executor
    ensures Head(g, k) == Head(f, k)
  {
    if k > 0 && f[0].executor != f[k].executor { SameHead(f[1..], g[1..], k - 1); }
  }

  /** The timer has a callback, or its owner can still give it one. */
  predicate CanHaveCallback(s: Scheduler, id: nat) {
    id in s.timers && (s.timers[id].hasCallback || s.timers[id].registered)
  }

  /** A waiting record's callback can always still begin, unless the timer was destroyed. */
  lemma WaitingCanBegin(s: Scheduler, id: nat, k: nat)
    requires Waits(s, id, k) && Known(s) && CanHaveCallback(s, id)
    ensures CanStillBegin(s, id)
  {
    hide CanStillBegin;
    if s.timers[id].hasCallback {
      CallbackCanBegin(s, id, k);
    } else {
      var s' := SetTimer(s, id, s.timers[id].(hasCallback := true));
      CallbackCanBegin(s', id, k);
      CanBeginAfter(s, SetCallback(id, true), s', id);
    }
  }

  lemma MuteStep(s: Scheduler, step: Step, s': Scheduler, id: nat)
    requires Inv(s) && Next(s, step, s') && id in s.timers && !CanHaveCallback(s, id)
    ensures id in s'.timers && !CanHaveCallback(s', id)
  {
    FreshId(s);
    hide Inv, Collected, Finalized, IsCollection;
    match step
    case Collect(executor, now, due) => TimersCollected(s, executor, now, due, id);
    case Finalize(k) => FinalizedTimer(s, k, id);
    case _ =>
  }

  lemma {:induction false} MuteOverRun(states: seq<Scheduler>, steps: seq<Step>, id: nat, n: nat)
    requires Linked(states, steps) && n <= |steps| && Inv(states[0]) && id in states[0].timers && !CanHaveCallback(states[0], id)
    ensures Inv(states[n]) && id in states[n].timers && !CanHaveCallback(states[n], id)
  {
    hide Inv, Next, CanHaveCallback;
    if n > 0 {
      MuteOverRun(states, steps, id, n - 1);
      MuteStep(states[n - 1], steps[n - 1], states[n], id);
      NextKeepsInv(states[n - 1], steps[n - 1], states[n]);
    }
  }

  lemma QuietCannotBegin(s: Scheduler, id: nat)
    requires Quiet(s, id)
    ensures !CanStillBegin(s, id)
  {
    hide Next, Quiet;
    forall states, steps | Linked(states, steps) && states[0] == s && |steps| > 0 && forall n :: 0 <= n < |steps| ==> !Starts(steps[n], id)
      ensures !BeginsCallback(states[|steps| - 1], steps[|steps| - 1], id)
    {
      QuietOverRun(states, steps, id, 0, |steps| - 1);
    }
  }

  lemma MuteCannotBegin(s: Scheduler, id: nat)
    requires Inv(s) && id in s.timers && !CanHaveCallback(s, id)
    ensures !CanStillBegin(s, id)
  {
    hide Next, Inv;
    forall states, steps | Linked(states, steps) && states[0] == s && |steps| > 0
      ensures !BeginsCallback(states[|steps| - 1], steps[|steps| - 1], id)
    {
      MuteOverRun(states, steps, id, |steps| - 1);
    }
  }

  /** An inactive timer's callback can begin before the next start exactly when a record of it waits and the timer
      has a callback or an owner. */
  lemma InactiveCanBegin(s: Scheduler, id: nat)
    requires Inv(s) && id in s.timers && !s.timers[id].active
    ensures CanStillBegin(s, id) <==> (exists k :: Waits(s, id, k)) && CanHaveCallback(s, id)
  {
    hide CanStillBegin, CanHaveCallback;
    InvKnown(s);
    hide Inv;
    if !CanHaveCallback(s, id) {
      MuteCannotBegin(s, id);
    } else if k :| Waits(s, id, k) {
      WaitingCanBegin(s, id, k);
    } else {
      assert forall k :: 0 <= k < |s.inFlight| && s.inFlight[k].entry.id == id && !s.inFlight[k].begun ==> Waits(s, id, k);
      QuietCannotBegin(s, id);
    }
  }

  /** So plain `stop` prevents every further callback until the next start exactly when no record waits. */
  lemma PlainStopIsFinal(s: Scheduler, id: nat)
    requires Inv(s) && id in s.timers
    ensures CanStillBegin(Stopped(s, id), id) <==> (exists k :: Waits(s, id, k)) && CanHaveCallback(s, id)
  {
    var s' := Stopped(s, id);
    StoppedInv(s, id);
    InactiveCanBegin(s', id);
    assert forall k :: Waits(s', id, k) <==> Waits(s, id, k);
    hide CanStillBegin, Inv;
  }

  /** The same at every later moment before the next start, with any number of executors and whatever `running` says. */
  lemma StoppedCanBegin(states: seq<Scheduler>, steps: seq<Step>, id: nat, i: nat, j: nat)
    requires IsRun(states, steps) && i < j <= |steps| && steps[i] == Stop(id)
    requires forall n :: i < n < j ==> !Starts(steps[n], id)
    ensures CanStillBegin(states[j], id) <==> (exists k :: Waits(states[j], id, k)) && CanHaveCallback(states[j], id)
  {
    InactiveOverRun(states, steps, id, i, j);
    RunKeepsInv(states, steps, j);
    hide Inv, IsRun, CanStillBegin;
    InactiveCanBegin(states[j], id);
  }

  lemma InvKnown(s: Scheduler)
    requires Inv(s)
    ensures Known(s)
  {
    forall i | 0 <= i < |s.inFlight|
      ensures s.inFlight[i].entry.id in s.timers
    {
      FlightIsRecord(s, i);
    }
  }

  // ----- runs -----

  /** The one queued entry is collected, by executor `e`. */
  lemma CollectsOne(s: Scheduler, e: nat, x: Entry)
    requires s.queue == [x] && x.fireTime == 0 && IsLive(s.timers, x)
    ensures IsCollection(s, 0, [x])
    ensures Collected(s, e, 0, [x]).inFlight == s.inFlight + [Flight(e, x, false)]
    ensures Collected(s, e, 0, [x]).queue == []
    ensures Collected(s, e, 0, [x]).timers == s.timers[x.id := s.timers[x.id].(running := true)]
  {
    assert LiveDue(s, 0) == [x];
    assert MarkRunning(s.timers, [x]) == s.timers[x.id := s.timers[x.id].(running := true)];
  }

  lemma LinkedMore(states: seq<Scheduler>, steps: seq<Step>, step: Step, s': Scheduler)
    requires Linked(states, steps) && Next(states[|steps|], step, s')
    ensures Linked(states + [s'], steps + [step])
  {
    hide Next;
  }

  /** A timer with a callback, started for time 0 and collected by executor 0. */
  lemma CollectedTimer() returns (states: seq<Scheduler>, steps: seq<Step>)
    ensures IsRun(states, steps) && |steps| == 4
    ensures states[4] == Scheduler([], map[1 := TimerState(0, false, true, true, 1, true, true)], 2, [Flight(0, Entry(0, 1, 1), false)])
  {
    var x := Entry(0, 1, 1);
    var s1 := Created(EMPTY);
    var s2 := SetTimer(s1, 1, s1.timers[1].(hasCallback := true));
    var s3 := Started(s2, 1, 0);
    var s4 := Collected(s3, 0, 0, [x]);
    CollectsOne(s3, 0, x);
    states, steps := [EMPTY, s1, s2, s3, s4], [Create, SetCallback(1, true), Start(1, 0), Collect(0, 0, [x])];
    assert Next(s3, steps[3], s4);
    assert s4.timers == map[1 := TimerState(0, false, true, true, 1, true, true)];
  }

  /** Plain `stop` is not final in every reachable state: a timer collected, then stopped, still runs its callback. */
  lemma PlainStopIsTooLate() returns (states: seq<Scheduler>, steps: seq<Step>)
    ensures IsRun(states, steps) && |steps| == 6 && steps[4] == Stop(1)
    ensures BeginsCallback(states[5], steps[5], 1) && !states[5].timers[1].active
  {
    states, steps := CollectedTimer();
    var s5 := Stopped(states[4], 1);
    LinkedMore(states, steps, Stop(1), s5);
    states, steps := states + [s5], steps + [Stop(1)];
    LinkedMore(states, steps, Begin(0), Begun(s5, 0));
    states, steps := states + [Begun(s5, 0)], steps + [Begin(0)];
  }

  /** Nor is `stop_and_wait` with two executors: one restarts the timer in its callback, the other collects the new
      record, and the first then clears `running`. */
  lemma TwoExecutorsStopTooEarly() returns (states: seq<Scheduler>, steps: seq<Step>)
    ensures IsRun(states, steps) && |steps| == 10 && steps[8] == Stop(1)
    ensures !states[9].timers[1].active && !states[9].timers[1].running && BeginsCallback(states[9], steps[9], 1)
  {
    states, steps := CollectedTimer();
    var y := Entry(0, 1, 2);
    var s5 := Begun(states[4], 0);
    LinkedMore(states, steps, Begin(0), s5);
    states, steps := states + [s5], steps + [Begin(0)];
    var s6 := Started(s5, 1, 0);
    LinkedMore(states, steps, Start(1, 0), s6);
    states, steps := states + [s6], steps + [Start(1, 0)];
    var s7 := Collected(s6, 1, 0, [y]);
    CollectsOne(s6, 1, y);
    LinkedMore(states, steps, Collect(1, 0, [y]), s7);
    states, steps := states + [s7], steps + [Collect(1, 0, [y])];
    var s8 := Finalized(s7, 0);
    LinkedMore(states, steps, Finalize(0), s8);
    states, steps := states + [s8], steps + [Finalize(0)];
    var s9 := Stopped(s8, 1);
    LinkedMore(states, steps, Stop(1), s9);
    states, steps := states + [s9], steps + [Stop(1)];
    LinkedMore(states, steps, Begin(0), Begun(s9, 0));
    states, steps := states + [Begun(s9, 0)], steps + [Begin(0)];
  }

  // ----- restarting inside the callback -----

  /** Steps that start the timer again, stop it or take it from the scheduler. */
  predicate Interrupts(step: Step, id: nat) {
    match step
    case Start(i, _) => i == id
    case Stop(i) => i == id
    case Unregister(i) => i == id
    case Orphan(i) => i == id
    case Deactivate(i) => i == id
    case _ => false
  }

  predicate FinalizesOne(s: Scheduler, step: Step, id: nat) {
    step.Finalize? && step.k < |s.inFlight| && s.inFlight[step.k].entry.id == id
  }

  predicate InFlight(s: Scheduler, y: Entry) {
    exists i :: 0 <= i < |s.inFlight| && s.inFlight[i].entry == y
  }

  /** `x` is the current record of an active timer. */
  predicate Restarted(s: Scheduler, x: Entry) {
    IsLive(s.timers, x) && x in Records(s)
  }

  predicate ByUser(step: Step) {
    !step.Collect? && !step.Begin? && !step.Finalize?
  }

  lemma UserStepRecords(s: Scheduler, step: Step, s': Scheduler)
    requires Next(s, step, s') && ByUser(step)
    ensures Records(s) <= Records(s')
  {
    assert s'.inFlight == s.inFlight && s.queue <= s'.queue;
    assert s'.queue == s.queue + s'.queue[|s.queue|..];
    hide FlightEntries, Next;
  }

  lemma RestartUser(s: Scheduler, step: Step, s': Scheduler, x: Entry)
    requires Inv(s) && Next(s, step, s') && IsLive(s.timers, x) && !Interrupts(step, x.id) && ByUser(step)
    ensures IsLive(s'.timers, x)
  {
    FreshId(s);
    hide Inv;
  }

  lemma RestartKept(s: Scheduler, step: Step, s': Scheduler, x: Entry)
    requires Inv(s) && Next(s, step, s') && Restarted(s, x) && !Interrupts(step, x.id) && !FinalizesOne(s, step, x.id)
    ensures Restarted(s', x)
  {
    hide Inv, Records, Collected, Finalized, IsCollection, Interrupts;
    match step
    case Collect(executor, now, due) =>
      RecordsCollected(s, executor, now, due);
      TimersCollected(s, executor, now, due, x.id);
    case Begin(k) =>
      SameRecords(s, s');
    case Finalize(k) =>
      RecordsFinalized(s, k);
    case _ =>
      UserStepRecords(s, step, s');
      RestartUser(s, step, s', x);
  }

  lemma SameRecords(s: Scheduler, s': Scheduler)
    requires s'.queue == s.queue && |s'.inFlight| == |s.inFlight|
    requires forall i :: 0 <= i < |s.inFlight| ==> s'.inFlight[i].entry == s.inFlight[i].entry
    ensures Records(s') == Records(s)
  {
    assert FlightEntries(s'.inFlight) == FlightEntries(s.inFlight);
  }

  lemma {:induction false} RestartOverRun(states: seq<Scheduler>, steps: seq<Step>, x: Entry, a: nat, n: nat)
    requires IsRun(states, steps) && a <= n <= |steps| && Restarted(states[a], x)
    requires forall m :: a <= m < n ==> !Interrupts(steps[m], x.id) && !FinalizesOne(states[m], steps[m], x.id)
    ensures Restarted(states[n], x)
  {
    hide Next, Restarted, Inv;
    if n > a {
      RestartOverRun(states, steps, x, a, n - 1);
      RunKeepsInv(states, steps, n - 1);
      RestartKept(states[n - 1], steps[n - 1], states[n], x);
    }
  }

  /** A timer restarted while its record `y` is in flight, as by its own callback: when `y` is finalized, before any
      other record of the timer, the new start survives exactly if the timer is not single-shot then. */
  lemma RestartInsideCallback(states: seq<Scheduler>, steps: seq<Step>, id: nat, when: int, y: Entry, a: nat, b: nat)
    requires IsRun(states, steps) && a < b < |steps| && steps[a] == Start(id, when) && steps[b].Finalize?
    requires id in states[a].timers && states[a].timers[id].registered
    requires InFlight(states[a], y) && y.id == id && FinalizesOne(states[b], steps[b], id) && states[b].inFlight[steps[b].k].entry == y
    requires forall n :: a < n < b ==> !Interrupts(steps[n], id) && !FinalizesOne(states[n], steps[n], id)
    ensures id in states[b].timers && id in states[b + 1].timers
    ensures var x := Entry(when, id, states[a].timers[id].generation + 1);
      var once := states[b].timers[id].singleShot;
      x in Records(states[b + 1]) && (states[b + 1].timers[id].active <==> !once) && (Restarted(states[b + 1], x) <==> !once)
  {
    hide Inv;
    var x := Entry(when, id, states[a].timers[id].generation + 1);
    RunKeepsInv(states, steps, a);
    assert Next(states[a], steps[a], states[a + 1]);
    assert Next(states[b], steps[b], states[b + 1]);
    hide Next;
    StartsRecord(states[a], x, y);
    RestartOverRun(states, steps, x, a + 1, b);
    FinalizesOld(states[b], steps[b].k, x);
  }

  lemma StartsRecord(s: Scheduler, x: Entry, y: Entry)
    requires Inv(s) && x.id in s.timers && s.timers[x.id].registered && x.generation == s.timers[x.id].generation + 1
    requires InFlight(s, y) && y.id == x.id
    ensures Restarted(Started(s, x.id, x.fireTime), x) && y.generation < x.generation
  {
    var i :| 0 <= i < |s.inFlight| && s.inFlight[i].entry == y;
    FlightIsRecord(s, i);
    RecordsPushed(s, Started(s, x.id, x.fireTime), x);
    hide Records;
  }

  lemma FinalizesOld(s: Scheduler, k: nat, x: Entry)
    requires Restarted(s, x) && k < |s.inFlight| && s.inFlight[k].entry.id == x.id && s.inFlight[k].entry.generation < x.generation
    ensures var s' := Finalized(s, k);
      x.id in s'.timers && x in Records(s') && (s'.timers[x.id].active <==> !s.timers[x.id].singleShot)
      && (Restarted(s', x) <==> !s.timers[x.id].singleShot)
  {
    RecordsFinalized(s, k);
    hide Records, RemoveAt;
  }

  /** The record is of an earlier generation and no executor holds it. */
  predicate Gone(s: Scheduler, y: Entry) {
    y.id in s.timers && y.generation < s.timers[y.id].generation && !InFlight(s, y)
  }

  lemma GenerationsGrow(s: Scheduler, step: Step, s': Scheduler, id: nat)
    requires Inv(s) && Next(s, step, s') && id in s.timers
    ensures id in s'.timers && s.timers[id].generation <= s'.timers[id].generation
  {
    FreshId(s);
    hide Inv, Collected, Finalized, IsCollection;
    match step
    case Collect(executor, now, due) => TimersCollected(s, executor, now, due, id);
    case Finalize(k) => FinalizedTimer(s, k, id);
    case _ =>
  }

  /** What is in flight after a step was so before, or was live when it was collected. */
  lemma FlightsBefore(s: Scheduler, step: Step, s': Scheduler, i: nat)
    requires Next(s, step, s') && i < |s'.inFlight|
    ensures InFlight(s, s'.inFlight[i].entry) || IsLive(s.timers, s'.inFlight[i].entry)
  {
    hide IsCollection, MarkRunning, NotDue, InFlight;
    match step
    case Collect(executor, now, due) =>
      if i < |s.inFlight| {
        FlightHeld(s, i);
      } else {
        DueIsLive(s, now, due, i - |s.inFlight|);
      }
    case Begin(k) => FlightHeld(s, i);
    case Finalize(k) => FlightHeld(s, if i < k then i else i + 1);
    case _ => FlightHeld(s, i);
  }

  lemma FlightHeld(s: Scheduler, i: nat)
    requires i < |s.inFlight|
    ensures InFlight(s, s.inFlight[i].entry)
  {
  }

  lemma GoneStep(s: Scheduler, step: Step, s': Scheduler, y: Entry)
    requires Inv(s) && Next(s, step, s') && Gone(s, y)
    ensures Gone(s', y)
  {
    GenerationsGrow(s, step, s', y.id);
    hide Inv, Next;
    if i :| 0 <= i < |s'.inFlight| && s'.inFlight[i].entry == y {
      FlightsBefore(s, step, s', i);
      assert false;
    }
  }

  lemma {:induction false} GoneForever(states: seq<Scheduler>, steps: seq<Step>, y: Entry, a: nat, n: nat)
    requires IsRun(states, steps) && a <= n <= |steps| && Gone(states[a], y)
    ensures Gone(states[n], y)
  {
    hide Next, Gone, Inv;
    if n > a {
      GoneForever(states, steps, y, a, n - 1);
      RunKeepsInv(states, steps, n - 1);
      GoneStep(states[n - 1], steps[n - 1], states[n], y);
    }
  }

  lemma {:induction false} OutdatedStays(states: seq<Scheduler>, steps: seq<Step>, id: nat, g: nat, a: nat, n: nat)
    requires IsRun(states, steps) && a <= n <= |steps| && id in states[a].timers && g < states[a].timers[id].generation
    ensures id in states[n].timers && g < states[n].timers[id].generation
  {
    hide Next, Inv;
    if n > a {
      OutdatedStays(states, steps, id, g, a, n - 1);
      RunKeepsInv(states, steps, n - 1);
      GenerationsGrow(states[n - 1], steps[n - 1], states[n], id);
    }
  }

  /** With one executor an outdated record still in flight at `b` is the next of its timer to be finalized. */
  lemma FinalizedNext(states: seq<Scheduler>, steps: seq<Step>, y: Entry, a: nat, n: nat, b: nat)
    requires IsRun(states, steps) && Solo(steps) && a <= n < b <= |steps| && InFlight(states[b], y)
    requires y.id in states[a].timers && y.generation < states[a].timers[y.id].generation
    ensures !FinalizesOne(states[n], steps[n], y.id)
  {
    OutdatedStays(states, steps, y.id, y.generation, a, n);
    OutdatedStays(states, steps, y.id, y.generation, a, n + 1);
    SoloRun(states, steps, n);
    if FinalizesOne(states[n], steps[n], y.id) {
      assert Next(states[n], steps[n], states[n + 1]);
      hide Next, IsRun, Inv;
      if InFlight(states[n], y) {
        SoloFinalizes(states[n], steps[n].k, y);
        GoneForever(states, steps, y, n + 1, b);
      } else {
        GoneForever(states, steps, y, n, b);
      }
      assert false;
    }
  }

  lemma SoloFinalizes(s: Scheduler, k: nat, y: Entry)
    requires SoloInv(s) && k < |s.inFlight| && s.inFlight[k].entry.id == y.id && InFlight(s, y) && y.id in s.timers
    ensures !InFlight(Finalized(s, k), y)
  {
    FinalizedFields(s, k);
    hide Finalized;
    var i :| 0 <= i < |s.inFlight| && s.inFlight[i].entry == y;
    assert i == k;
  }

  /** So with a single executor a restart inside the callback survives exactly if the timer is not single-shot when the
      callback's record is finalized, whatever else happens meanwhile. */
  lemma RestartWithOneExecutor(states: seq<Scheduler>, steps: seq<Step>, id: nat, when: int, y: Entry, a: nat, b: nat)
    requires IsRun(states, steps) && Solo(steps) && a < b < |steps| && steps[a] == Start(id, when) && steps[b].Finalize?
    requires id in states[a].timers && states[a].timers[id].registered
    requires InFlight(states[a], y) && y.id == id && FinalizesOne(states[b], steps[b], id) && states[b].inFlight[steps[b].k].entry == y
    requires forall n :: a < n < b ==> !Interrupts(steps[n], id)
    ensures id in states[b].timers && id in states[b + 1].timers
    ensures var x := Entry(when, id, states[a].timers[id].generation + 1);
      var once := states[b].timers[id].singleShot;
      x in Records(states[b + 1]) && (states[b + 1].timers[id].active <==> !once) && (Restarted(states[b + 1], x) <==> !once)
  {
    hide Inv, Records;
    RunKeepsInv(states, steps, a);
    assert Next(states[a], steps[a], states[a + 1]);
    hide Next;
    StartsRecord(states[a], Entry(when, id, states[a].timers[id].generation + 1), y);
    assert InFlight(states[b], y);
    forall n | a < n < b
      ensures !FinalizesOne(states[n], steps[n], id)
    {
      FinalizedNext(states, steps, y, a + 1, n, b);
    }
    RestartInsideCallback(states, steps, id, when, y, a, b);
  }

  /** A timer that its callback restarts and then makes single-shot is cancelled. */
  lemma RestartThenSingleShot() returns (states: seq<Scheduler>, steps: seq<Step>)
    ensures IsRun(states, steps) && |steps| == 8
    ensures steps[5] == Start(1, 10) && states[5].inFlight == [Flight(0, Entry(0, 1, 1), true)]
    ensures 1 in states[5].timers && !states[5].timers[1].singleShot
    ensures steps[6] == SetSingleShot(1, true) && steps[7] == Finalize(0) && 1 in states[8].timers && !states[8].timers[1].active
  {
    states, steps := CollectedTimer();
    var s5 := Begun(states[4], 0);
    LinkedMore(states, steps, Begin(0), s5);
    states, steps := states + [s5], steps + [Begin(0)];
    var s6 := Started(s5, 1, 10);
    LinkedMore(states, steps, Start(1, 10), s6);
    states, steps := states + [s6], steps + [Start(1, 10)];
    var s7 := SetTimer(s6, 1, s6.timers[1].(singleShot := true));
    LinkedMore(states, steps, SetSingleShot(1, true), s7);
    states, steps := states + [s7], steps + [SetSingleShot(1, true)];
    var s8 := Finalized(s7, 0);
    LinkedMore(states, steps, Finalize(0), s8);
    states, steps := states + [s8], steps + [Finalize(0)];
  }
}
