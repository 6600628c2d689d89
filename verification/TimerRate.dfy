/** A repeating timer keeps a fixed rate: its firings are stamped from the start time, not from when they ran. */
module TimerRate {
  import opened TimerSpec
  import opened TimerProofs
  import opened TimerRuns

  /** Steps by which a user interferes with the timer. */
  predicate Disturbs(step: Step, id: nat) {
    match step
    case SetInterval(i, _) => i == id
    case SetSingleShot(i, _) => i == id
    case Start(i, _) => i == id
    case Stop(i) => i == id
    case Unregister(i) => i == id
    case Orphan(i) => i == id
    case Deactivate(i) => i == id
    case _ => false
  }

  /** The timer fires for a record no older than generation `g0`: its callback, if it has one, begins. */
  predicate Fires(s: Scheduler, step: Step, id: nat, g0: nat) {
    Handles(s, step, id) && s.inFlight[step.k].entry.generation >= g0
  }

  /** How often it did so at steps `a` to `b - 1`. */
  function Fired(states: seq<Scheduler>, steps: seq<Step>, id: nat, g0: nat, a: nat, b: nat): nat
    requires |states| == |steps| + 1 && a <= b <= |steps|
  {
    if a == b then 0 else Fired(states, steps, id, g0, a, b - 1) + if Fires(states[b - 1], steps[b - 1], id, g0) then 1 else 0
  }

  /** The timer's current record is in flight and its callback has begun. */
  ghost predicate Firing(s: Scheduler, id: nat)
    requires id in s.timers
  {
    exists f :: f in s.inFlight && f.entry.id == id && f.entry.generation == s.timers[id].generation && f.begun
  }

  /** The timer was started for `t0` on generation `g0`, repeats every `ms`, and has fired `c` times since. */
  ghost predicate OnSchedule(s: Scheduler, id: nat, g0: nat, t0: int, ms: int, c: nat) {
    id in s.timers && g0 <= s.timers[id].generation
    && (var t := s.timers[id];
        t.registered && t.active && !t.singleShot && t.intervalMs == ms
        && c == t.generation - g0 + (if Firing(s, id) then 1 else 0)
        && Stamped(s, id, g0, t0 + (t.generation - g0) * ms))
  }

  /** The timer's records since generation `g0` are current and fire at `time`. */
  ghost predicate Stamped(s: Scheduler, id: nat, g0: nat, time: int)
    requires id in s.timers
  {
    forall x :: x in Records(s) && x.id == id && x.generation >= g0 ==> x.generation == s.timers[id].generation && x.fireTime == time
  }

  lemma InRemoveAt<T>(q: seq<T>, k: nat, x: T)
    requires k < |q|
    ensures x in RemoveAt(q, k) ==> x in q
    ensures x in q && x != q[k] ==> x in RemoveAt(q, k)
  {
    if x in q && x != q[k] {
      var i :| 0 <= i < |q| && q[i] == x;
      assert RemoveAt(q, k)[if i < k then i else i - 1] == x;
    }
  }

  /** Two flights of one timer and generation are the same flight. */
  lemma OneFlight(s: Scheduler, i: nat, j: nat)
    requires Inv(s) && i < j < |s.inFlight|
    ensures s.inFlight[i].entry.id != s.inFlight[j].entry.id || s.inFlight[i].entry.generation != s.inFlight[j].entry.generation
  {
    FlightIsRecord(s, i);
    FlightIsRecord(s, j);
    var f := FlightEntries(s.inFlight);
    RepeatedElement(f, i, j);
    assert Records(s)[f[i]] >= multiset(f)[f[i]];
    hide Records;
  }

  /** Nothing about this timer changes but for its callback and `running`. */
  lemma ScheduleKept(s: Scheduler, s': Scheduler, id: nat, g0: nat, t0: int, ms: int, c: nat)
    requires OnSchedule(s, id, g0, t0, ms, c) && id in s'.timers
    requires s'.timers[id] == s.timers[id].(running := s'.timers[id].running, hasCallback := s'.timers[id].hasCallback)
    requires forall x :: x in Records(s') && x.id == id ==> x in Records(s)
    requires Firing(s', id) <==> Firing(s, id)
    ensures OnSchedule(s', id, g0, t0, ms, c)
  {
    hide Records, Firing;
  }

  lemma UserStepKeeps(s: Scheduler, step: Step, s': Scheduler, id: nat)
    requires Next(s, step, s') && !Disturbs(step, id) && ByUser(step) && id in s.timers && id != s.nextId
    ensures id in s'.timers && s'.timers[id] == s.timers[id].(hasCallback := s'.timers[id].hasCallback)
    ensures s'.inFlight == s.inFlight
    ensures s'.queue == s.queue || exists x: Entry :: x.id != id && s'.queue == s.queue + [x]
  {
  }

  lemma ScheduleUser(s: Scheduler, step: Step, s': Scheduler, id: nat, g0: nat, t0: int, ms: int, c: nat)
    requires Inv(s) && OnSchedule(s, id, g0, t0, ms, c) && Next(s, step, s') && !Disturbs(step, id) && ByUser(step)
    ensures OnSchedule(s', id, g0, t0, ms, c)
  {
    FreshId(s);
    UserStepKeeps(s, step, s', id);
    hide Next, Inv, FlightEntries;
    if s'.queue != s.queue {
      var x: Entry :| x.id != id && s'.queue == s.queue + [x];
      RecordsPushed(s, s', x);
    }
    ScheduleKept(s, s', id, g0, t0, ms, c);
  }

  lemma ScheduleCollect(s: Scheduler, executor: nat, now: int, due: seq<Entry>, id: nat, g0: nat, t0: int, ms: int, c: nat)
    requires OnSchedule(s, id, g0, t0, ms, c) && IsCollection(s, now, due)
    ensures OnSchedule(Collected(s, executor, now, due), id, g0, t0, ms, c)
  {
    var s' := Collected(s, executor, now, due);
    RecordsCollected(s, executor, now, due);
    TimersCollected(s, executor, now, due, id);
    assert s'.inFlight == s.inFlight + Flights(executor, due);
    hide Collected, IsCollection, Records;
    assert forall x :: x in Records(s') ==> x in Records(s);
    assert forall f :: f in Flights(executor, due) ==> !f.begun;
    ScheduleKept(s, s', id, g0, t0, ms, c);
  }

  /** Beginning the current record's callback is the next firing, stamped on schedule. */
  lemma ScheduleBegin(s: Scheduler, k: nat, id: nat, g0: nat, t0: int, ms: int, c: nat)
    requires Inv(s) && OnSchedule(s, id, g0, t0, ms, c) && k < |s.inFlight| && !s.inFlight[k].begun
    ensures OnSchedule(Begun(s, k), id, g0, t0, ms, c + if Fires(s, Begin(k), id, g0) then 1 else 0)
    ensures Fires(s, Begin(k), id, g0) ==> s.inFlight[k].entry.fireTime == t0 + c * ms
  {
    hide Inv, Records, Firing, Begun, Stamped;
    BegunFields(s, k, id, g0, t0 + (s.timers[id].generation - g0) * ms);
    FiringAfterBegin(s, k, id);
    if Fires(s, Begin(k), id, g0) {
      StampOf(s, s.inFlight[k].entry, g0, t0 + (s.timers[id].generation - g0) * ms);
    }
  }

  lemma BegunFields(s: Scheduler, k: nat, id: nat, g0: nat, time: int)
    requires k < |s.inFlight| && id in s.timers && Stamped(s, id, g0, time)
    ensures Begun(s, k).timers == s.timers && s.inFlight[k].entry in Records(s) && Stamped(Begun(s, k), id, g0, time)
    ensures s.inFlight[k].entry.id == id && s.inFlight[k].entry.generation >= g0 ==> s.inFlight[k].entry.generation == s.timers[id].generation
  {
    assert Records(Begun(s, k)) == Records(s) by { assert FlightEntries(Begun(s, k).inFlight) == FlightEntries(s.inFlight); }
    FlightIsRecord(s, k);
    hide Records;
  }

  lemma FiringAfterBegin(s: Scheduler, k: nat, id: nat)
    requires Inv(s) && k < |s.inFlight| && !s.inFlight[k].begun && id in s.timers
    ensures var current := s.inFlight[k].entry.id == id && s.inFlight[k].entry.generation == s.timers[id].generation;
      (Firing(Begun(s, k), id) <==> Firing(s, id) || current) && (current ==> !Firing(s, id))
  {
    hide Inv;
    var s' := Begun(s, k);
    assert s'.inFlight[k] in s'.inFlight;
    if Firing(s, id) {
      var f :| f in s.inFlight && f.entry.id == id && f.entry.generation == s.timers[id].generation && f.begun;
      var j :| 0 <= j < |s.inFlight| && s.inFlight[j] == f;
      assert s'.inFlight[j] == f;
      OneFlight(s, if j < k then j else k, if j < k then k else j);
    }
  }

  lemma ScheduleFinalize(s: Scheduler, k: nat, id: nat, g0: nat, t0: int, ms: int, c: nat)
    requires Inv(s) && OnSchedule(s, id, g0, t0, ms, c) && k < |s.inFlight| && s.inFlight[k].begun && s.inFlight[k].entry.id in s.timers
    ensures OnSchedule(Finalized(s, k), id, g0, t0, ms, c)
  {
    hide Inv, Records, Finalized, RemoveAt, Firing, Stamped;
    var x := s.inFlight[k].entry;
    FlightsFinalized(s, k);
    if x.id == id && x.generation == s.timers[id].generation {
      CurrentFinalized(s, k);
      NextRound(s, Finalized(s, k), k, id, g0, t0, ms, c);
    } else {
      OtherFinalized(s, k, id);
      ScheduleKept(s, Finalized(s, k), id, g0, t0, ms, c);
    }
  }

  lemma FlightsFinalized(s: Scheduler, k: nat)
    requires k < |s.inFlight| && s.inFlight[k].entry.id in s.timers
    ensures Finalized(s, k).inFlight == RemoveAt(s.inFlight, k)
    ensures forall f :: f in Finalized(s, k).inFlight ==> f in s.inFlight
    ensures forall f :: f in s.inFlight && f != s.inFlight[k] ==> f in Finalized(s, k).inFlight
  {
    assert Finalized(s, k).inFlight == RemoveAt(s.inFlight, k);
    hide Finalized, RemoveAt;
    forall f: Flight
      ensures f in RemoveAt(s.inFlight, k) ==> f in s.inFlight
      ensures f in s.inFlight && f != s.inFlight[k] ==> f in RemoveAt(s.inFlight, k)
    {
      InRemoveAt(s.inFlight, k, f);
    }
  }

  /** Finalizing another timer's record, or an outdated one of this repeating timer. */
  lemma OtherFinalized(s: Scheduler, k: nat, id: nat)
    requires k < |s.inFlight| && s.inFlight[k].entry.id in s.timers && id in s.timers && !s.timers[id].singleShot
    requires s.inFlight[k].entry.id != id || s.inFlight[k].entry.generation != s.timers[id].generation
    ensures id in Finalized(s, k).timers && Finalized(s, k).timers[id] == s.timers[id].(running := Finalized(s, k).timers[id].running)
    ensures forall y :: y in Records(Finalized(s, k)) && y.id == id ==> y in Records(s)
    ensures Firing(Finalized(s, k), id) <==> Firing(s, id)
  {
    var s' := Finalized(s, k);
    RecordsFinalized(s, k);
    FlightsFinalized(s, k);
    assert s'.timers[id] == s.timers[id].(running := s'.timers[id].running);
    assert s.inFlight[k].entry.id == id ==> !Repeats(s, k);
    hide Records, Finalized, RemoveAt;
  }

  /** Finalizing the record of a repeating timer that nobody disturbed. */
  lemma CurrentFinalized(s: Scheduler, k: nat)
    requires k < |s.inFlight| && s.inFlight[k].entry.id in s.timers && Repeats(s, k)
    ensures var x := s.inFlight[k].entry;
      var t := s.timers[x.id];
      var s' := Finalized(s, k);
      x in Records(s) && s'.timers == s.timers[x.id := t.(running := false, generation := t.generation + 1)]
      && Records(s') == Records(s) - multiset{x} + multiset{Entry(x.fireTime + t.intervalMs, x.id, t.generation + 1)}
  {
    hide Records, Finalized;
    RecordsFinalized(s, k);
    CurrentTimers(s, k);
  }

  lemma CurrentTimers(s: Scheduler, k: nat)
    requires k < |s.inFlight| && s.inFlight[k].entry.id in s.timers && Repeats(s, k)
    ensures var id := s.inFlight[k].entry.id;
      var t := s.timers[id];
      Finalized(s, k).timers == s.timers[id := t.(running := false, generation := t.generation + 1)]
  {
    hide RemoveAt;
  }

  /** Replacing the one recent record `x` of a timer by `y` leaves `y` its only recent record. */
  lemma OnlyNext(s: Scheduler, s': Scheduler, x: Entry, y: Entry, g0: nat)
    requires Inv(s) && x in Records(s) && x.id in s.timers && x.id in s'.timers && x.generation == s.timers[x.id].generation
    requires g0 <= x.generation && Stamped(s, x.id, g0, x.fireTime)
    requires Records(s') == Records(s) - multiset{x} + multiset{y} && y.id == x.id
    requires y.generation == s'.timers[x.id].generation
    ensures Stamped(s', x.id, g0, y.fireTime)
  {
    hide Records;
    assert Records(s)[x] == 1;
    assert forall z :: z in Records(s') ==> z == y || (z in Records(s) && z != x);
  }

  lemma NotFiringYet(s: Scheduler, s': Scheduler, id: nat)
    requires Inv(s) && id in s.timers && id in s'.timers && s'.timers[id].generation == s.timers[id].generation + 1
    requires forall f :: f in s'.inFlight ==> f in s.inFlight
    ensures !Firing(s', id)
  {
    FlightsBounded(s, id);
    hide Records, Inv;
  }

  lemma NextRound(s: Scheduler, s': Scheduler, k: nat, id: nat, g0: nat, t0: int, ms: int, c: nat)
    requires Inv(s) && OnSchedule(s, id, g0, t0, ms, c) && k < |s.inFlight| && s.inFlight[k].begun
    requires var x := s.inFlight[k].entry;
      var t := s.timers[id];
      x in Records(s) && x.id == id && x.generation == t.generation
      && s'.timers == s.timers[id := t.(running := false, generation := t.generation + 1)]
      && Records(s') == Records(s) - multiset{x} + multiset{Entry(x.fireTime + t.intervalMs, id, t.generation + 1)}
    requires forall f :: f in s'.inFlight ==> f in s.inFlight
    ensures OnSchedule(s', id, g0, t0, ms, c)
  {
    hide Records, Inv, Stamped, Firing;
    NowFiring(s, k);
    NotFiringYet(s, s', id);
    var x := s.inFlight[k].entry;
    StampOf(s, x, g0, t0 + (s.timers[id].generation - g0) * ms);
    OnlyNext(s, s', x, Entry(x.fireTime + ms, id, s.timers[id].generation + 1), g0);
    var n := s.timers[id].generation - g0;
    assert (n + 1) * ms == n * ms + ms;
  }

  lemma NowFiring(s: Scheduler, k: nat)
    requires k < |s.inFlight| && s.inFlight[k].begun && s.inFlight[k].entry.id in s.timers
    requires s.inFlight[k].entry.generation == s.timers[s.inFlight[k].entry.id].generation
    ensures Firing(s, s.inFlight[k].entry.id)
  {
    assert s.inFlight[k] in s.inFlight;
  }

  lemma StampOf(s: Scheduler, x: Entry, g0: nat, time: int)
    requires x in Records(s) && x.id in s.timers && x.generation >= g0 && Stamped(s, x.id, g0, time)
    ensures x.fireTime == time
  {
    hide Records;
  }

  lemma FlightsBounded(s: Scheduler, id: nat)
    requires Inv(s) && id in s.timers
    ensures forall f :: f in s.inFlight && f.entry.id == id ==> f.entry.generation <= s.timers[id].generation
  {
    forall f | f in s.inFlight && f.entry.id == id
      ensures f.entry.generation <= s.timers[id].generation
    {
      var i :| 0 <= i < |s.inFlight| && s.inFlight[i] == f;
      FlightIsRecord(s, i);
    }
  }

  lemma ScheduleStep(s: Scheduler, step: Step, s': Scheduler, id: nat, g0: nat, t0: int, ms: int, c: nat)
    requires Inv(s) && OnSchedule(s, id, g0, t0, ms, c) && Next(s, step, s') && !Disturbs(step, id)
    ensures OnSchedule(s', id, g0, t0, ms, c + if Fires(s, step, id, g0) then 1 else 0)
    ensures Fires(s, step, id, g0) ==> s.inFlight[step.k].entry.fireTime == t0 + c * ms
  {
    hide Inv, OnSchedule, Collected, Finalized, IsCollection;
    match step
    case Collect(executor, now, due) => ScheduleCollect(s, executor, now, due, id, g0, t0, ms, c);
    case Begin(k) => ScheduleBegin(s, k, id, g0, t0, ms, c);
    case Finalize(k) => ScheduleFinalize(s, k, id, g0, t0, ms, c);
    case _ => ScheduleUser(s, step, s', id, g0, t0, ms, c);
  }

  lemma ScheduleStarts(s: Scheduler, s': Scheduler, id: nat, when: int)
    requires Inv(s) && Next(s, Start(id, when), s') && id in s.timers && s.timers[id].registered && !s.timers[id].singleShot
    ensures OnSchedule(s', id, s.timers[id].generation + 1, when, s.timers[id].intervalMs, 0)
  {
    var x := Entry(when, id, s.timers[id].generation + 1);
    RecordsPushed(s, s', x);
    FlightsBounded(s, id);
    hide Records;
  }

  lemma {:induction false} ScheduleOverRun(states: seq<Scheduler>, steps: seq<Step>, id: nat, when: int, a: nat, b: nat)
    requires IsRun(states, steps) && a < b <= |steps| && steps[a] == Start(id, when)
    requires id in states[a].timers && states[a].timers[id].registered && !states[a].timers[id].singleShot
    requires forall n :: a < n < b ==> !Disturbs(steps[n], id)
    ensures var t := states[a].timers[id];
      OnSchedule(states[b], id, t.generation + 1, when, t.intervalMs, Fired(states, steps, id, t.generation + 1, a + 1, b))
    decreases b
  {
    hide Inv, OnSchedule, Fires, Next;
    var t := states[a].timers[id];
    RunKeepsInv(states, steps, b - 1);
    assert Next(states[b - 1], steps[b - 1], states[b]);
    if b == a + 1 {
      ScheduleStarts(states[a], states[b], id, when);
    } else {
      ScheduleOverRun(states, steps, id, when, a, b - 1);
      ScheduleStep(states[b - 1], steps[b - 1], states[b], id, t.generation + 1, when, t.intervalMs,
                   Fired(states, steps, id, t.generation + 1, a + 1, b - 1));
    }
  }

  /** The n-th firing of an undisturbed repeating timer (counting from 0) is stamped start time + n * interval,
      however late the executors were. */
  lemma FixedRate(states: seq<Scheduler>, steps: seq<Step>, id: nat, when: int, a: nat, b: nat)
    requires IsRun(states, steps) && a < b < |steps| && steps[a] == Start(id, when)
    requires id in states[a].timers && states[a].timers[id].registered && !states[a].timers[id].singleShot
    requires forall n :: a < n < b ==> !Disturbs(steps[n], id)
    requires Fires(states[b], steps[b], id, states[a].timers[id].generation + 1)
    ensures var t := states[a].timers[id];
      states[b].inFlight[steps[b].k].entry.fireTime
      == when + Fired(states, steps, id, t.generation + 1, a + 1, b) * t.intervalMs
  {
    hide Inv, OnSchedule, IsCollection;
    var t := states[a].timers[id];
    ScheduleOverRun(states, steps, id, when, a, b);
    RunKeepsInv(states, steps, b);
    assert Next(states[b], steps[b], states[b + 1]);
    hide Next;
    ScheduleStep(states[b], steps[b], states[b + 1], id, t.generation + 1, when, t.intervalMs,
                 Fired(states, steps, id, t.generation + 1, a + 1, b));
  }
}
