/** The user's settings are what the user last set, and a single-shot timer fires once per start. */
module TimerSettings {
  import opened TimerSpec
  import opened TimerProofs
  import opened TimerRuns
  import opened TimerRate

  predicate SetsSingleShot(step: Step, id: nat) {
    step.SetSingleShot? && step.id == id
  }

  predicate SetsInterval(step: Step, id: nat) {
    step.SetInterval? && step.id == id
  }

  predicate SetsCallback(step: Step, id: nat) {
    (step.SetCallback? || step.Deactivate?) && step.id == id
  }

  /** What one step leaves of a timer's settings. */
  lemma SettingsStep(s: Scheduler, step: Step, s': Scheduler, id: nat)
    requires Inv(s) && Next(s, step, s') && id in s.timers
    ensures id in s'.timers
    ensures var (t, t') := (s.timers[id], s'.timers[id]);
      && t'.singleShot == (if SetsSingleShot(step, id) then step.flag else t.singleShot)
      && t'.intervalMs == (if SetsInterval(step, id) then (if step.ms < 0 then 0 else step.ms) else t.intervalMs)
      && t'.hasCallback == (if SetsCallback(step, id) then step.SetCallback? && step.present else t.hasCallback)
  {
    FreshId(s);
    hide Inv, Collected, Finalized, IsCollection;
    match step
    case Collect(executor, now, due) => TimersCollected(s, executor, now, due, id);
    case Finalize(k) => FinalizedTimer(s, k, id);
    case _ =>
  }

  predicate Deactivates(step: Step, id: nat) {
    (step.Stop? || step.Unregister? || step.Deactivate?) && step.id == id
  }

  predicate Unregisters(step: Step, id: nat) {
    (step.Unregister? || step.Orphan?) && step.id == id
  }

  /** A timer is active from a start until it is stopped, destroyed or orphaned, or a record of it is finalized while it
      is single-shot; and it is registered until it is destroyed or orphaned. */
  lemma ActivityStep(s: Scheduler, step: Step, s': Scheduler, id: nat)
    requires Inv(s) && Next(s, step, s') && id in s.timers
    ensures id in s'.timers
    ensures var (t, t') := (s.timers[id], s'.timers[id]);
      && t'.registered == (t.registered && !Unregisters(step, id))
      && t'.active == (Starts(step, id) || (t.active && !Deactivates(step, id) && !(FinalizesOne(s, step, id) && t.singleShot)))
  {
    hide Inv, Collected, Finalized, IsCollection;
    match step
    case Collect(executor, now, due) => TimersCollected(s, executor, now, due, id);
    case Begin(k) =>
    case Finalize(k) => FinalizedTimer(s, k, id);
    case _ =>
      FreshId(s);
      UserActivity(s, step, s', id);
  }

  lemma UserActivity(s: Scheduler, step: Step, s': Scheduler, id: nat)
    requires ByUser(step) && Next(s, step, s') && id in s.timers && id != s.nextId
    ensures id in s'.timers
    ensures var (t, t') := (s.timers[id], s'.timers[id]);
      && t'.registered == (t.registered && !Unregisters(step, id))
      && t'.active == (Starts(step, id) || (t.active && !Deactivates(step, id)))
  {
  }

  /** What ends a timer's activity. */
  predicate EndsActivity(s: Scheduler, step: Step, id: nat) {
    Deactivates(step, id) || (FinalizesOne(s, step, id) && id in s.timers && s.timers[id].singleShot)
  }

  /** Over any run a started timer is active exactly until something ends it. */
  lemma {:induction false} ActiveUntilEnded(states: seq<Scheduler>, steps: seq<Step>, id: nat, a: nat, n: nat)
    requires IsRun(states, steps) && a < n <= |steps| && id in states[a].timers && Starts(steps[a], id)
    requires forall m :: a < m < n ==> !Starts(steps[m], id)
    ensures id in states[n].timers
    ensures states[n].timers[id].active <==> forall m :: a < m < n ==> !EndsActivity(states[m], steps[m], id)
  {
    hide Next, Inv, EndsActivity, Starts;
    RunKeepsInv(states, steps, n - 1);
    if n == a + 1 {
      StartedIsActive(states[a], steps[a], states[n], id);
    } else {
      ActiveUntilEnded(states, steps, id, a, n - 1);
      StillActive(states[n - 1], steps[n - 1], states[n], id);
    }
  }

  lemma StartedIsActive(s: Scheduler, step: Step, s': Scheduler, id: nat)
    requires Inv(s) && Next(s, step, s') && id in s.timers && Starts(step, id)
    ensures id in s'.timers && s'.timers[id].active
  {
    hide Inv, Next;
    ActivityStep(s, step, s', id);
  }

  lemma StillActive(s: Scheduler, step: Step, s': Scheduler, id: nat)
    requires Inv(s) && Next(s, step, s') && id in s.timers && !Starts(step, id)
    ensures id in s'.timers && (s'.timers[id].active <==> s.timers[id].active && !EndsActivity(s, step, id))
  {
    hide Inv, Next;
    ActivityStep(s, step, s', id);
  }

  /** And registered exactly until it is destroyed or orphaned, started or not. */
  lemma {:induction false} RegisteredUntilGone(states: seq<Scheduler>, steps: seq<Step>, id: nat, a: nat, n: nat)
    requires IsRun(states, steps) && a <= n <= |steps| && id in states[a].timers
    ensures id in states[n].timers
    ensures states[n].timers[id].registered <==>
              states[a].timers[id].registered && forall m :: a <= m < n ==> !Unregisters(steps[m], id)
  {
    hide Next, Inv, Unregisters;
    if n > a {
      RegisteredUntilGone(states, steps, id, a, n - 1);
      RunKeepsInv(states, steps, n - 1);
      hide Starts, Deactivates, FinalizesOne;
      ActivityStep(states[n - 1], steps[n - 1], states[n], id);
    }
  }

  /** A new timer: interval 0, repeating, without a callback, neither active nor running. */
  lemma CreatedSettings(states: seq<Scheduler>, steps: seq<Step>, a: nat)
    requires IsRun(states, steps) && a < |steps| && steps[a] == Create
    ensures var id := states[a].nextId;
      id in states[a + 1].timers
      && var t := states[a + 1].timers[id];
         t.registered && t.intervalMs == 0 && !t.singleShot && !t.hasCallback && !t.active && !t.running
  {
    assert Next(states[a], steps[a], states[a + 1]);
  }

  /** A setting that the user does not touch between `a` and `n` stays as it is, whatever starts, stops and firings
      happen meanwhile. */
  lemma {:induction false} SettingsKept(states: seq<Scheduler>, steps: seq<Step>, id: nat, a: nat, n: nat)
    requires IsRun(states, steps) && a <= n <= |steps| && id in states[a].timers
    ensures id in states[n].timers
    ensures (forall m :: a <= m < n ==> !SetsSingleShot(steps[m], id)) ==>
              states[n].timers[id].singleShot == states[a].timers[id].singleShot
    ensures (forall m :: a <= m < n ==> !SetsInterval(steps[m], id)) ==>
              states[n].timers[id].intervalMs == states[a].timers[id].intervalMs
    ensures (forall m :: a <= m < n ==> !SetsCallback(steps[m], id)) ==>
              states[n].timers[id].hasCallback == states[a].timers[id].hasCallback
  {
    hide Next, Inv, SetsSingleShot, SetsInterval, SetsCallback;
    if n > a {
      SettingsKept(states, steps, id, a, n - 1);
      RunKeepsInv(states, steps, n - 1);
      SettingsStep(states[n - 1], steps[n - 1], states[n], id);
    }
  }

  /** What the user last set is what holds; a negative interval counts as 0. */
  lemma LastSettingHolds(states: seq<Scheduler>, steps: seq<Step>, id: nat, a: nat, n: nat)
    requires IsRun(states, steps) && a < n <= |steps| && id in states[a].timers
    ensures id in states[n].timers
    ensures SetsSingleShot(steps[a], id) && (forall m :: a < m < n ==> !SetsSingleShot(steps[m], id)) ==>
              states[n].timers[id].singleShot == steps[a].flag
    ensures SetsInterval(steps[a], id) && (forall m :: a < m < n ==> !SetsInterval(steps[m], id)) ==>
              states[n].timers[id].intervalMs == if steps[a].ms < 0 then 0 else steps[a].ms
    ensures SetsCallback(steps[a], id) && (forall m :: a < m < n ==> !SetsCallback(steps[m], id)) ==>
              states[n].timers[id].hasCallback == (steps[a].SetCallback? && steps[a].present)
  {
    RunKeepsInv(states, steps, a);
    assert Next(states[a], steps[a], states[a + 1]);
    SettingsStep(states[a], steps[a], states[a + 1], id);
    hide Next, Inv, IsRun, SetsSingleShot, SetsInterval, SetsCallback;
    SettingsKept(states, steps, id, a + 1, n);
  }

  // ----- single-shot timers -----

  /** The timer is single-shot, and no record of it is of a later start than `x`. */
  ghost predicate OnlyShot(s: Scheduler, x: Entry) {
    x.id in s.timers && s.timers[x.id].singleShot && x.generation <= s.timers[x.id].generation
    && forall y :: y in Records(s) && y.id == x.id && y.generation >= x.generation ==> y == x
  }

  /** Nobody starts the timer or changes its mode. */
  predicate LeavesAlone(step: Step, id: nat) {
    !Starts(step, id) && !SetsSingleShot(step, id)
  }

  /** A step that leaves a single-shot timer alone makes no record of it. */
  lemma NoNewRecord(s: Scheduler, step: Step, s': Scheduler, id: nat, y: Entry)
    requires Inv(s) && Next(s, step, s') && id in s.timers && s.timers[id].singleShot && LeavesAlone(step, id)
    requires y in Records(s') && y.id == id
    ensures y in Records(s)
  {
    hide Inv, Records, Collected, Finalized, IsCollection, FlightEntries;
    match step
    case Collect(executor, now, due) => RecordsCollected(s, executor, now, due);
    case Begin(k) => SameRecords(s, s');
    case Finalize(k) => RecordsFinalized(s, k);
    case Start(i, when) => RecordsPushed(s, s', Entry(when, i, s.timers[i].generation + 1));
    case _ => SameRecords(s, s');
  }

  lemma OnlyShotStep(s: Scheduler, step: Step, s': Scheduler, x: Entry)
    requires Inv(s) && Next(s, step, s') && OnlyShot(s, x) && LeavesAlone(step, x.id)
    ensures OnlyShot(s', x)
  {
    GenerationsGrow(s, step, s', x.id);
    SettingsStep(s, step, s', x.id);
    forall y | y in Records(s') && y.id == x.id && y.generation >= x.generation
      ensures y == x
    {
      NoNewRecord(s, step, s', x.id, y);
    }
    hide Next, Inv, Records;
  }

  lemma OnlyShotStarted(s: Scheduler, s': Scheduler, x: Entry)
    requires Inv(s) && Next(s, Start(x.id, x.fireTime), s') && x.id in s.timers && s.timers[x.id].singleShot
    requires x.generation == s.timers[x.id].generation + 1
    ensures OnlyShot(s', x)
  {
    RecordsPushed(s, s', x);
    SettingsStep(s, Start(x.id, x.fireTime), s', x.id);
    hide Records;
  }

  lemma {:induction false} OnlyShotKept(states: seq<Scheduler>, steps: seq<Step>, x: Entry, a: nat, n: nat)
    requires IsRun(states, steps) && a <= n <= |steps| && OnlyShot(states[a], x)
    requires forall m :: a <= m < n ==> LeavesAlone(steps[m], x.id)
    ensures OnlyShot(states[n], x)
  {
    hide Next, Inv, OnlyShot, LeavesAlone;
    if n > a {
      OnlyShotKept(states, steps, x, a, n - 1);
      RunKeepsInv(states, steps, n - 1);
      OnlyShotStep(states[n - 1], steps[n - 1], states[n], x);
    }
  }

  /** The user starts a single-shot timer at step `a` and then, up to `n`, neither starts it nor changes its mode. */
  ghost predicate IsShot(states: seq<Scheduler>, steps: seq<Step>, id: nat, when: int, a: nat, n: nat) {
    IsRun(states, steps) && a < n <= |steps| && steps[a] == Start(id, when)
    && id in states[a].timers && states[a].timers[id].singleShot && forall m :: a < m < n ==> LeavesAlone(steps[m], id)
  }

  lemma ShotOverRun(states: seq<Scheduler>, steps: seq<Step>, id: nat, when: int, a: nat, n: nat, m: nat)
    requires IsShot(states, steps, id, when, a, n) && a < m <= n
    ensures Inv(states[m]) && OnlyShot(states[m], Entry(when, id, states[a].timers[id].generation + 1))
  {
    var x := Entry(when, id, states[a].timers[id].generation + 1);
    RunKeepsInv(states, steps, a);
    RunKeepsInv(states, steps, m);
    assert Next(states[a], steps[a], states[a + 1]);
    hide Next, Inv, OnlyShot, LeavesAlone;
    OnlyShotStarted(states[a], states[a + 1], x);
    OnlyShotKept(states, steps, x, a + 1, m);
  }

  /** The record is not queued, and wherever it is in flight its callback has begun. */
  predicate Spent(s: Scheduler, x: Entry) {
    x !in s.queue && forall i :: 0 <= i < |s.inFlight| && s.inFlight[i].entry == x ==> s.inFlight[i].begun
  }

  lemma SpentByHandling(s: Scheduler, k: nat)
    requires Inv(s) && k < |s.inFlight|
    ensures Spent(Begun(s, k), s.inFlight[k].entry)
  {
    var x := s.inFlight[k].entry;
    FlightIsRecord(s, k);
    assert FlightEntries(s.inFlight)[k] == x;
    assert x in s.queue ==> Records(s)[x] >= 2;
    hide Records;
    forall i | 0 <= i < |s.inFlight| && i != k && s.inFlight[i].entry == x
      ensures false
    {
      OneFlight(s, if i < k then i else k, if i < k then k else i);
    }
  }

  lemma SpentStep(s: Scheduler, step: Step, s': Scheduler, x: Entry)
    requires Inv(s) && Next(s, step, s') && OnlyShot(s, x) && LeavesAlone(step, x.id) && Spent(s, x)
    ensures Spent(s', x)
  {
    hide Inv, OnlyShot;
    match step
    case Collect(executor, now, due) => SpentCollected(s, executor, now, due, x);
    case Begin(k) =>
    case Finalize(k) =>
      assert x.id in s.timers && s.timers[x.id].singleShot by { ShotFields(s, x); }
      SpentFinalized(s, k, x);
    case _ => hide Records;
  }

  lemma ShotFields(s: Scheduler, x: Entry)
    requires OnlyShot(s, x)
    ensures x.id in s.timers && s.timers[x.id].singleShot
  {
  }

  lemma SpentCollected(s: Scheduler, executor: nat, now: int, due: seq<Entry>, x: Entry)
    requires IsCollection(s, now, due) && Spent(s, x)
    ensures Spent(Collected(s, executor, now, due), x)
  {
    KeepMultiset(s.queue, DueAndLive(s.timers, now), x);
    KeepMultiset(s.queue, After(now), x);
    hide Keep, MarkRunning;
    assert multiset(due)[x] == 0 && x !in due;
    assert multiset(NotDue(s.queue, now))[x] == 0;
  }

  lemma SpentFinalized(s: Scheduler, k: nat, x: Entry)
    requires Spent(s, x) && k < |s.inFlight| && s.inFlight[k].entry.id in s.timers
    requires x.id in s.timers && s.timers[x.id].singleShot
    ensures Spent(Finalized(s, k), x)
  {
    var s' := Finalized(s, k);
    assert s'.inFlight == s.inFlight[..k] + s.inFlight[k + 1..];
    assert forall i :: 0 <= i < |s'.inFlight| ==> s'.inFlight[i] == s.inFlight[if i < k then i else i + 1];
    assert s'.queue == s.queue || (s.inFlight[k].entry.id != x.id && s'.queue[..|s.queue|] == s.queue);
    hide RemoveAt;
  }

  lemma {:induction false} SpentKept(states: seq<Scheduler>, steps: seq<Step>, x: Entry, a: nat, n: nat)
    requires IsRun(states, steps) && a <= n <= |steps| && OnlyShot(states[a], x) && Spent(states[a], x)
    requires forall m :: a <= m < n ==> LeavesAlone(steps[m], x.id)
    ensures Spent(states[n], x)
  {
    hide Next, Inv, OnlyShot, LeavesAlone, Spent;
    if n > a {
      SpentKept(states, steps, x, a, n - 1);
      OnlyShotKept(states, steps, x, a, n - 1);
      RunKeepsInv(states, steps, n - 1);
      SpentStep(states[n - 1], steps[n - 1], states[n], x);
    }
  }

  /** The step handles a record of a start later than generation `g`. */
  predicate HandlesAfter(s: Scheduler, step: Step, id: nat, g: nat) {
    Handles(s, step, id) && s.inFlight[step.k].entry.generation > g
  }

  lemma HandledShot(s: Scheduler, step: Step, x: Entry, g: nat)
    requires OnlyShot(s, x) && HandlesAfter(s, step, x.id, g) && x.generation == g + 1
    ensures s.inFlight[step.k].entry == x
  {
    FlightIsRecord(s, step.k);
    hide Records;
  }

  lemma HandlingStep(s: Scheduler, step: Step, s': Scheduler, x: Entry, g: nat)
    requires Inv(s) && Next(s, step, s') && OnlyShot(s, x) && HandlesAfter(s, step, x.id, g) && x.generation == g + 1
    ensures s.inFlight[step.k].entry == x && Spent(s', x) && !Spent(s, x)
  {
    HandledShot(s, step, x, g);
    SpentByHandling(s, step.k);
    hide Inv, OnlyShot;
  }

  lemma ShotStaysSpent(states: seq<Scheduler>, steps: seq<Step>, id: nat, when: int, a: nat, n: nat, m: nat, x: Entry)
    requires IsShot(states, steps, id, when, a, n) && a < m <= n && x == Entry(when, id, states[a].timers[id].generation + 1)
    requires Spent(states[m], x)
    ensures Spent(states[n], x)
  {
    hide Next, Inv, OnlyShot, LeavesAlone, Spent;
    ShotOverRun(states, steps, id, when, a, n, m);
    SpentKept(states, steps, x, m, n);
  }

  lemma ShotSteps(states: seq<Scheduler>, steps: seq<Step>, id: nat, when: int, a: nat, n: nat, m: nat)
    requires IsShot(states, steps, id, when, a, n) && m < |steps|
    ensures |states| == |steps| + 1 && Next(states[m], steps[m], states[m + 1]) && a < |states| && id in states[a].timers
  {
    hide Next, LeavesAlone;
  }

  /** A timer that is single-shot when started, and then neither started again nor given another mode, is handled at most
      once for that start, for the very time it was started for. */
  lemma SingleShotFiresOnce(states: seq<Scheduler>, steps: seq<Step>, id: nat, when: int, a: nat, i: nat, j: nat)
    requires IsShot(states, steps, id, when, a, j) && i < j < |steps| && a < i
    requires HandlesAfter(states[i], steps[i], id, states[a].timers[id].generation)
    ensures states[i].inFlight[steps[i].k].entry.fireTime == when
    ensures !HandlesAfter(states[j], steps[j], id, states[a].timers[id].generation)
  {
    var g := states[a].timers[id].generation;
    var x := Entry(when, id, g + 1);
    hide Next, Inv, OnlyShot, Spent, HandlesAfter, IsShot;
    ShotSteps(states, steps, id, when, a, j, i);
    ShotSteps(states, steps, id, when, a, j, j);
    ShotOverRun(states, steps, id, when, a, j, i);
    ShotOverRun(states, steps, id, when, a, j, j);
    HandlingStep(states[i], steps[i], states[i + 1], x, g);
    ShotStaysSpent(states, steps, id, when, a, j, i + 1, x);
    if HandlesAfter(states[j], steps[j], id, g) {
      HandlingStep(states[j], steps[j], states[j + 1], x, g);
      assert false;
    }
  }

  /** The timer is inactive and all its records are of starts before `x`. */
  ghost predicate Over(s: Scheduler, x: Entry) {
    x.id in s.timers && !s.timers[x.id].active && s.timers[x.id].singleShot && x.generation <= s.timers[x.id].generation
    && forall y :: y in Records(s) && y.id == x.id ==> y.generation < x.generation
  }

  lemma ShotFinalized(s: Scheduler, k: nat, x: Entry)
    requires Inv(s) && OnlyShot(s, x) && k < |s.inFlight| && s.inFlight[k].entry == x
    ensures Over(Finalized(s, k), x)
  {
    RecordsFinalized(s, k);
    assert Records(s)[x] == 1;
    hide Records, RemoveAt;
  }

  lemma OverStep(s: Scheduler, step: Step, s': Scheduler, x: Entry)
    requires Inv(s) && Next(s, step, s') && Over(s, x) && LeavesAlone(step, x.id)
    ensures Over(s', x)
  {
    GenerationsGrow(s, step, s', x.id);
    SettingsStep(s, step, s', x.id);
    InactiveUntilStart(s, step, s', x.id);
    forall y | y in Records(s') && y.id == x.id
      ensures y.generation < x.generation
    {
      NoNewRecord(s, step, s', x.id, y);
    }
    hide Next, Inv, Records;
  }

  lemma {:induction false} OverKept(states: seq<Scheduler>, steps: seq<Step>, x: Entry, a: nat, n: nat)
    requires IsRun(states, steps) && a <= n <= |steps| && Over(states[a], x)
    requires forall m :: a <= m < n ==> LeavesAlone(steps[m], x.id)
    ensures Over(states[n], x)
  {
    hide Next, Inv, Over, LeavesAlone;
    if n > a {
      OverKept(states, steps, x, a, n - 1);
      RunKeepsInv(states, steps, n - 1);
      OverStep(states[n - 1], steps[n - 1], states[n], x);
    }
  }

  /** Once its record is finalized it is inactive, with no current record left, until it is started again. */
  lemma SingleShotEnds(states: seq<Scheduler>, steps: seq<Step>, id: nat, when: int, a: nat, i: nat, n: nat)
    requires IsShot(states, steps, id, when, a, n) && a < i < n && FinalizesOne(states[i], steps[i], id)
    requires states[i].inFlight[steps[i].k].entry.generation > states[a].timers[id].generation
    ensures id in states[n].timers && !states[n].timers[id].active && forall y :: !IsCurrent(states[n], id, y)
  {
    var x := Entry(when, id, states[a].timers[id].generation + 1);
    assert Next(states[i], steps[i], states[i + 1]);
    ShotOverRun(states, steps, id, when, a, n, i);
    FlightIsRecord(states[i], steps[i].k);
    hide Inv, LeavesAlone, Records;
    ShotFinalized(states[i], steps[i].k, x);
    hide Next, OnlyShot;
    OverKept(states, steps, x, i + 1, n);
  }
}
