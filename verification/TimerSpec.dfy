/** `TimerScheduler` as a step system on values: every locked section, atomic store and callback
    start is one step, taken in any order by any number of executors. */
module TimerSpec {
  datatype TimerState = TimerState(intervalMs: int, singleShot: bool, active: bool, running: bool,
                                   generation: nat, registered: bool, hasCallback: bool)

  /** An entry of the priority queue, and later the due record made from it. */
  datatype Entry = Entry(fireTime: int, id: nat, generation: nat)

  /** A due record held by an executor; `begun` once its callback has been copied (and run, if any). */
  datatype Flight = Flight(executor: nat, entry: Entry, begun: bool)

  datatype Scheduler = Scheduler(queue: seq<Entry>, timers: map<nat, TimerState>, nextId: nat, inFlight: seq<Flight>)

  datatype Step =
    | Create
    | SetInterval(id: nat, ms: int)
    | SetSingleShot(id: nat, flag: bool)
    | SetCallback(id: nat, present: bool)
    | Start(id: nat, when: int)
    | Stop(id: nat)
    | Unregister(id: nat)
    | Orphan(id: nat)
    | Deactivate(id: nat)
    | Collect(executor: nat, now: int, due: seq<Entry>)
    | Begin(k: nat)
    | Finalize(k: nat)

  const EMPTY := Scheduler([], map[], 1, [])

  // ----- what each locked section does -----

  function SetTimer(s: Scheduler, id: nat, t: TimerState): Scheduler {
    s.(timers := s.timers[id := t])
  }

  function Created(s: Scheduler): Scheduler {
    SetTimer(s, s.nextId, TimerState(0, false, false, false, 0, true, false)).(nextId := s.nextId + 1)
  }

  function Started(s: Scheduler, id: nat, when: int): Scheduler
    requires id in s.timers
  {
    var t := s.timers[id];
    SetTimer(s, id, t.(active := true, generation := t.generation + 1))
      .(queue := s.queue + [Entry(when, id, t.generation + 1)])
  }

  function Stopped(s: Scheduler, id: nat): Scheduler
    requires id in s.timers
  {
    var t := s.timers[id];
    SetTimer(s, id, t.(active := false, generation := t.generation + 1))
  }

  /** `destroy_timer_state`, after its callback was cleared. */
  function Unregistered(s: Scheduler, id: nat): Scheduler
    requires id in s.timers
  {
    var t := s.timers[id];
    SetTimer(s, id, t.(active := false, generation := t.generation + 1, registered := false))
  }

  function Keep(q: seq<Entry>, p: Entry -> bool): (r: seq<Entry>)
    ensures |r| <= |q|
  {
    if q == [] then []
    else if p(q[0]) then [q[0]] + Keep(q[1..], p)
    else Keep(q[1..], p)
  }

  /** An entry the scheduler may still fire: its timer is registered, active and on this generation. */
  predicate IsLive(timers: map<nat, TimerState>, x: Entry) {
    x.id in timers && timers[x.id].registered && timers[x.id].active && timers[x.id].generation == x.generation
  }

  function DueAndLive(timers: map<nat, TimerState>, now: int): Entry -> bool {
    (x: Entry) => x.fireTime <= now && IsLive(timers, x)
  }

  function After(now: int): Entry -> bool {
    (x: Entry) => x.fireTime > now
  }

  function LiveDue(s: Scheduler, now: int): seq<Entry> {
    Keep(s.queue, DueAndLive(s.timers, now))
  }

  function NotDue(q: seq<Entry>, now: int): seq<Entry> {
    Keep(q, After(now))
  }

  ghost predicate InFireOrder(due: seq<Entry>) {
    forall i, j :: 0 <= i < j < |due| ==> due[i].fireTime <= due[j].fireTime
  }

  /** What one collecting pass returns: the live due entries, earliest first (ties in any order). */
  ghost predicate IsCollection(s: Scheduler, now: int, due: seq<Entry>) {
    InFireOrder(due) && multiset(due) == multiset(LiveDue(s, now))
  }

  function MarkRunning(timers: map<nat, TimerState>, due: seq<Entry>): (r: map<nat, TimerState>)
    ensures r.Keys == timers.Keys
    ensures forall id :: id in timers ==> r[id] == timers[id].(running := r[id].running)
    ensures forall id :: id in timers ==> (r[id].running <==> timers[id].running || exists x :: x in due && x.id == id)
  {
    map id | id in timers :: timers[id].(running := timers[id].running || exists x :: x in due && x.id == id)
  }

  function Flights(executor: nat, due: seq<Entry>): (r: seq<Flight>)
    ensures |r| == |due|
    ensures forall i :: 0 <= i < |due| ==> r[i] == Flight(executor, due[i], false)
  {
    seq(|due|, i requires 0 <= i < |due| => Flight(executor, due[i], false))
  }

  function Collected(s: Scheduler, executor: nat, now: int, due: seq<Entry>): Scheduler {
    s.(queue := NotDue(s.queue, now), timers := MarkRunning(s.timers, due),
       inFlight := s.inFlight + Flights(executor, due))
  }

  function RemoveAt<T>(q: seq<T>, k: nat): (r: seq<T>)
    requires k < |q|
    ensures |r| == |q| - 1
  {
    q[..k] + q[k + 1..]
  }

  /** The executor of the due record at `k` copies its timer's callback and runs it. */
  function Begun(s: Scheduler, k: nat): Scheduler
    requires k < |s.inFlight|
  {
    s.(inFlight := s.inFlight[k := s.inFlight[k].(begun := true)])
  }

  /** The timer of the due record at `k` repeats and nobody started or stopped it since. */
  predicate Repeats(s: Scheduler, k: nat)
    requires k < |s.inFlight| && s.inFlight[k].entry.id in s.timers
  {
    var x := s.inFlight[k].entry;
    var t := s.timers[x.id];
    t.active && !t.singleShot && t.generation == x.generation
  }

  /** `finalize_timer` for the due record at position `k`. */
  function Finalized(s: Scheduler, k: nat): Scheduler
    requires k < |s.inFlight| && s.inFlight[k].entry.id in s.timers
  {
    var x := s.inFlight[k].entry;
    var t := s.timers[x.id];
    var s1 := s.(inFlight := RemoveAt(s.inFlight, k));
    if !t.active then SetTimer(s1, x.id, t.(running := false))
    else if t.singleShot then SetTimer(s1, x.id, t.(running := false, active := false, generation := t.generation + 1))
    else if t.generation != x.generation then SetTimer(s1, x.id, t.(running := false))
    else SetTimer(s1, x.id, t.(running := false, generation := t.generation + 1))
           .(queue := s1.queue + [Entry(x.fireTime + t.intervalMs, x.id, t.generation + 1)])
  }

  /** The record an executor handles next is the first of its batch still in flight. */
  ghost predicate IsHead(s: Scheduler, k: nat) {
    k < |s.inFlight| && forall i :: 0 <= i < k ==> s.inFlight[i].executor != s.inFlight[k].executor
  }

  ghost predicate Next(s: Scheduler, step: Step, s': Scheduler) {
    match step
    case Create => s' == Created(s)
    case SetInterval(id, ms) => id in s.timers && s' == SetTimer(s, id, s.timers[id].(intervalMs := if ms < 0 then 0 else ms))
    case SetSingleShot(id, flag) => id in s.timers && s' == SetTimer(s, id, s.timers[id].(singleShot := flag))
    case SetCallback(id, present) =>
      id in s.timers && (present ==> s.timers[id].registered) && s' == SetTimer(s, id, s.timers[id].(hasCallback := present))
    case Start(id, when) => id in s.timers && s' == Started(s, id, when)
    case Stop(id) => id in s.timers && s' == Stopped(s, id)
    case Unregister(id) => id in s.timers && s' == Unregistered(s, id)
    case Orphan(id) => id in s.timers && s' == SetTimer(s, id, s.timers[id].(registered := false))
    case Deactivate(id) =>
      id in s.timers && !s.timers[id].registered && s' == SetTimer(s, id, s.timers[id].(active := false, hasCallback := false))
    case Collect(executor, now, due) =>
      (forall i :: 0 <= i < |s.inFlight| ==> s.inFlight[i].executor != executor)
      && IsCollection(s, now, due) && s' == Collected(s, executor, now, due)
    case Begin(k) =>
      IsHead(s, k) && !s.inFlight[k].begun && s' == Begun(s, k)
    case Finalize(k) =>
      IsHead(s, k) && s.inFlight[k].begun && s.inFlight[k].entry.id in s.timers && s' == Finalized(s, k)
  }

  /** Consecutive states, one step apart. */
  ghost predicate Linked(states: seq<Scheduler>, steps: seq<Step>) {
    |states| == |steps| + 1 && forall i :: 0 <= i < |steps| ==> Next(states[i], steps[i], states[i + 1])
  }

  /** A run starts from the empty scheduler. */
  ghost predicate IsRun(states: seq<Scheduler>, steps: seq<Step>) {
    Linked(states, steps) && states[0] == EMPTY
  }

  // ----- the invariant of every reachable state -----

  function FlightEntries(f: seq<Flight>): (r: seq<Entry>)
    ensures |r| == |f|
    ensures forall i :: 0 <= i < |f| ==> r[i] == f[i].entry
  {
    seq(|f|, i requires 0 <= i < |f| => f[i].entry)
  }

  /** Every record that still exists: queued entries and due records in flight. */
  function Records(s: Scheduler): multiset<Entry> {
    multiset(s.queue) + multiset(FlightEntries(s.inFlight))
  }

  ghost predicate Bounded(s: Scheduler) {
    && 1 <= s.nextId && (forall id :: id in s.timers ==> 1 <= id < s.nextId)
    && (forall x :: x in Records(s) ==> x.id in s.timers && 1 <= x.generation <= s.timers[x.id].generation)
  }

  /** No two records carry the same timer and generation. */
  ghost predicate Distinct(m: multiset<Entry>) {
    && (forall x :: m[x] <= 1)
    && (forall x, y :: x in m && y in m && x.id == y.id && x.generation == y.generation ==> x == y)
  }

  /** A record of timer `id` on its current generation. */
  ghost predicate IsCurrent(s: Scheduler, id: nat, x: Entry)
    requires id in s.timers
  {
    x in Records(s) && x.id == id && x.generation == s.timers[id].generation
  }

  /** Registered timers: active exactly when a record of the current generation exists. */
  ghost predicate ActiveHasRecord(s: Scheduler) {
    forall id :: id in s.timers && s.timers[id].registered ==>
      (s.timers[id].active <==> exists x :: IsCurrent(s, id, x))
  }

  ghost predicate Inv(s: Scheduler) {
    Bounded(s) && Distinct(Records(s)) && ActiveHasRecord(s)
  }
}
