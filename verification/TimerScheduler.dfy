/** The mutable `TimerScheduler` and its timer states; every locked section is proved against `TimerSpec`. */
module TimerSchedulerModel {
  import opened TimerSpec

  /** The shared state of one timer. */
  class TimerCell {
    const id: nat
    var intervalMs: int
    var singleShot: bool
    var active: bool
    var running: bool
    var generation: nat
    var hasCallback: bool

    constructor (id: nat)
      ensures this.id == id && Value(true) == TimerState(0, false, false, false, 0, true, false)
    {
      this.id := id;
      intervalMs, singleShot, active, running, generation, hasCallback := 0, false, false, false, 0, false;
    }

    function Value(registered: bool): TimerState
      reads this
    {
      TimerState(intervalMs, singleShot, active, running, generation, registered, hasCallback)
    }
  }

  /** A due timer as the executor sees it. */
  datatype DueTimer = DueTimer(fireTime: int, generation: nat, cell: TimerCell)

  class TimerScheduler {
    var queue: seq<Entry>
    var timers: map<nat, TimerCell>
    var nextId: nat
    /** Every timer ever created: destroyed ones live on while a due record refers to them. */
    ghost var cells: map<nat, TimerCell>
    /** The due records the executors hold. */
    ghost var inFlight: seq<Flight>

    ghost predicate Valid()
      reads this`cells, this`timers, this`nextId, cells.Values
    {
      && (forall id :: id in cells ==> cells[id].id == id)
      && (forall id :: id in timers ==> id in cells && timers[id] == cells[id])
      && forall id :: id in cells ==> id < nextId
    }

    ghost function State(): Scheduler
      reads this, cells.Values
    {
      Scheduler(queue, CellValues(), nextId, inFlight)
    }

    ghost function CellValues(): map<nat, TimerState>
      reads this`cells, this`timers, cells.Values
    {
      map id | id in cells :: cells[id].Value(id in timers)
    }

    ghost predicate Owns(cell: TimerCell)
      reads this
    {
      hide CellValues;
      cell.id in cells && cells[cell.id] == cell
    }

    /** When only one cell changed, only its entry of the abstract state did. */
    twostate lemma OneChanged(cell: TimerCell)
      requires old(Valid()) && old(Owns(cell)) && cells == old(cells)
      requires forall id :: id in cells && id != cell.id ==> unchanged(cells[id]) && (id in timers <==> id in old(timers))
      ensures CellValues() == old(CellValues())[cell.id := cell.Value(cell.id in timers)]
      ensures cell.id in old(CellValues()) && old(CellValues())[cell.id] == old(cell.Value(cell.id in timers))
    {
      forall id | id in cells && id != cell.id
        ensures cells[id].Value(id in timers) == old(cells[id].Value(id in timers))
      {
      }
    }

    constructor ()
      ensures Valid() && State() == EMPTY
    {
      queue, timers, nextId, cells, inFlight := [], map[], 1, map[], [];
    }

    method CreateTimerState() returns (cell: TimerCell)
      requires Valid()
      modifies this
      ensures Valid() && fresh(cell) && Owns(cell) && State() == Created(old(State()))
    {
      cell := new TimerCell(nextId);
      timers := timers[nextId := cell];
      cells := cells[nextId := cell];
      nextId := nextId + 1;
    }

    method ClearCallback(cell: TimerCell)
      requires Valid() && Owns(cell)
      modifies cell
      ensures Valid() && State() == SetTimer(old(State()), cell.id, old(State()).timers[cell.id].(hasCallback := false))
    {
      hide CellValues;
      cell.hasCallback := false;
      OneChanged(cell);
    }

    method Unregister(cell: TimerCell)
      requires Valid() && Owns(cell)
      modifies this`timers, cell
      ensures Valid() && Owns(cell) && cell.id !in timers && State() == Unregistered(old(State()), cell.id)
    {
      hide CellValues;
      cell.active := false;
      cell.generation := cell.generation + 1;
      timers := timers - {cell.id};
      OneChanged(cell);
    }

    method DestroyTimerState(cell: TimerCell)
      requires Valid() && Owns(cell)
      modifies this`timers, cell
      ensures Valid() && Owns(cell) && cell.id !in timers
      ensures State() == Unregistered(SetTimer(old(State()), cell.id, old(State()).timers[cell.id].(hasCallback := false)), cell.id)
    {
      hide CellValues, Unregistered, SetTimer;
      ClearCallback(cell);
      Unregister(cell);
    }

    method StartTimer(cell: TimerCell, when: int)
      requires Valid() && Owns(cell)
      modifies this`queue, cell
      ensures Valid() && Owns(cell) && State() == Started(old(State()), cell.id, when)
    {
      hide CellValues;
      cell.active := true;
      cell.generation := cell.generation + 1;
      queue := queue + [Entry(when, cell.id, cell.generation)];
      OneChanged(cell);
    }

    method StopTimer(cell: TimerCell)
      requires Valid() && Owns(cell)
      modifies cell
      ensures Valid() && Owns(cell) && State() == Stopped(old(State()), cell.id)
    {
      hide CellValues;
      cell.active := false;
      cell.generation := cell.generation + 1;
      OneChanged(cell);
    }

    method FinalizeTimer(cell: TimerCell, fireTime: int, generation: nat, ghost k: nat)
      requires Valid() && Owns(cell) && k < |inFlight| && inFlight[k].entry == Entry(fireTime, cell.id, generation)
      modifies this`queue, this`inFlight, cell
      ensures Valid() && Owns(cell) && State() == Finalized(old(State()), k)
    {
      hide CellValues, RemoveAt;
      inFlight := RemoveAt(inFlight, k);
      cell.running := false;
      if !cell.active {
        OneChanged(cell);
        return;
      }
      if cell.singleShot {
        cell.active := false;
        cell.generation := cell.generation + 1;
        OneChanged(cell);
        return;
      }
      if cell.generation != generation {
        OneChanged(cell);
        return;
      }
      cell.generation := cell.generation + 1;
      queue := queue + [Entry(fireTime + cell.intervalMs, cell.id, cell.generation)];
      OneChanged(cell);
    }

    /** The due timers are the given records, each with its own timer's state. */
    ghost predicate Describes(due: seq<DueTimer>, records: seq<Entry>)
      reads this`cells
    {
      |due| == |records|
      && forall i :: 0 <= i < |due| ==>
           due[i].cell.id in cells && cells[due[i].cell.id] == due[i].cell
           && records[i] == Entry(due[i].fireTime, due[i].cell.id, due[i].generation)
    }

    lemma DescribesNone()
      ensures Describes([], [])
    {
    }

    lemma DescribesMore(due: seq<DueTimer>, records: seq<Entry>, item: Entry)
      requires Describes(due, records) && item.id in cells && cells[item.id].id == item.id
      ensures Describes(due + [DueTimer(item.fireTime, item.generation, cells[item.id])], records + [item])
    {
    }

    method Top() returns (top: nat)
      requires |queue| > 0
      ensures IsEarliest(queue, top)
    {
      SomeEarliest(queue);
      top :| 0 <= top < |queue| && IsEarliest(queue, top);
    }

    /** What the loop tests about a popped entry is whether it is live. */
    lemma LiveCell(before: map<nat, TimerState>, records: seq<Entry>, item: Entry)
      requires Valid() && CellValues() == MarkRunning(before, records)
      ensures IsLive(before, item) <==> item.id in timers && timers[item.id].active && timers[item.id].generation == item.generation
    {
      assert item.id in before <==> item.id in cells;
      if item.id in cells {
        assert MarkRunning(before, records)[item.id] == cells[item.id].Value(item.id in timers);
      }
      hide MarkRunning;
    }

    method CollectDueTimersLocked(now: int, ghost executor: nat) returns (due: seq<DueTimer>, ghost records: seq<Entry>)
      requires Valid()
      modifies this`queue, this`inFlight, cells.Values
      ensures Valid() && Describes(due, records)
      ensures IsCollection(old(State()), now, records) && State() == Collected(old(State()), executor, now, records)
      ensures forall i :: 0 <= i < |queue| ==> queue[i].fireTime > now
    {
      hide CellValues, RemoveAt, Pass, IsCollection, MarkRunning, Flights, NotDue, Describes;
      due, records := [], [];
      DescribesNone();
      ghost var s := State();
      PassStarts(s, now);
      MarkNone(s.timers);
      while |queue| > 0
        invariant Valid() && cells == old(cells) && timers == old(timers) && inFlight == old(inFlight) && nextId == old(nextId)
        invariant Describes(due, records)
        invariant CellValues() == MarkRunning(s.timers, records) && Pass(s, now, queue, records)
        decreases |queue|
      {
        var top := Top();
        if queue[top].fireTime > now {
          break;
        }
        var item := queue[top];
        ghost var before := queue;
        queue := RemoveAt(queue, top);
        LiveCell(s.timers, records, item);
        if item.id !in timers {
          PassDrops(s, now, before, records, top);
          continue;
        }
        var cell := timers[item.id];
        if !cell.active || cell.generation != item.generation {
          PassDrops(s, now, before, records, top);
          continue;
        }
        PassTakes(s, now, before, records, top);
        MarkOneMore(s.timers, records, item);
        label Unmarked:
        cell.running := true;
        OneChanged@Unmarked(cell);
        DescribesMore(due, records, item);
        due := due + [DueTimer(item.fireTime, item.generation, cell)];
        records := records + [item];
      }
      PassEnds(s, now, queue, records);
      inFlight := inFlight + Flights(executor, records);
    }
  }

  // ----- one collecting pass over values -----

  lemma MarkNone(timers: map<nat, TimerState>)
    ensures MarkRunning(timers, []) == timers
  {
  }

  lemma MarkOneMore(timers: map<nat, TimerState>, records: seq<Entry>, x: Entry)
    requires x.id in timers
    ensures var m := MarkRunning(timers, records);
      MarkRunning(timers, records + [x]) == m[x.id := m[x.id].(running := true)]
  {
    var m := MarkRunning(timers, records);
    var m' := MarkRunning(timers, records + [x]);
    forall id | id in timers
      ensures m'[id] == if id == x.id then m[id].(running := true) else m[id]
    {
      assert x in records + [x];
      assert forall y :: y in records + [x] <==> y in records || y == x;
    }
  }

  predicate IsEarliest(q: seq<Entry>, k: nat) {
    k < |q| && forall i :: 0 <= i < |q| ==> q[k].fireTime <= q[i].fireTime
  }

  lemma {:induction false} SomeEarliest(q: seq<Entry>)
    requires |q| > 0
    ensures exists k :: 0 <= k < |q| && IsEarliest(q, k)
  {
    if |q| == 1 {
      assert IsEarliest(q, 0);
    } else {
      SomeEarliest(q[1..]);
      var k :| 0 <= k < |q| - 1 && IsEarliest(q[1..], k);
      assert forall i :: 0 < i < |q| ==> q[i] == q[1..][i - 1];
      assert IsEarliest(q, if q[0].fireTime <= q[k + 1].fireTime then 0 else k + 1);
    }
  }

  /** A pass from state `s`: what is still queued and what was taken, with nothing late lost and nothing live forgotten. */
  ghost predicate Pass(s: Scheduler, now: int, queue: seq<Entry>, taken: seq<Entry>) {
    && NotDue(queue, now) == NotDue(s.queue, now)
    && multiset(taken) + multiset(Keep(queue, DueAndLive(s.timers, now))) == multiset(LiveDue(s, now))
    && InFireOrder(taken)
    && forall i, j :: 0 <= i < |taken| && 0 <= j < |queue| ==> taken[i].fireTime <= queue[j].fireTime
  }

  lemma {:induction false} KeepRemoved(q: seq<Entry>, k: nat, p: Entry -> bool)
    requires k < |q|
    ensures !p(q[k]) ==> Keep(RemoveAt(q, k), p) == Keep(q, p)
    ensures p(q[k]) ==> multiset(Keep(q, p)) == multiset(Keep(RemoveAt(q, k), p)) + multiset{q[k]}
  {
    if k == 0 {
      assert RemoveAt(q, k) == q[1..];
    } else {
      KeepRemoved(q[1..], k - 1, p);
      var r := RemoveAt(q, k);
      assert r[0] == q[0] && r[1..] == RemoveAt(q[1..], k - 1);
      hide RemoveAt;
      assert q[1..][k - 1] == q[k];
    }
  }

  lemma {:induction false} KeepNoneOrAll(q: seq<Entry>, p: Entry -> bool)
    ensures (forall x :: x in q ==> !p(x)) ==> Keep(q, p) == []
    ensures (forall x :: x in q ==> p(x)) ==> Keep(q, p) == q
  {
    if q != [] {
      KeepNoneOrAll(q[1..], p);
      assert q[0] in q && forall x :: x in q[1..] ==> x in q;
      assert q == [q[0]] + q[1..];
    }
  }

  lemma PassStarts(s: Scheduler, now: int)
    ensures Pass(s, now, s.queue, [])
  {
    hide Keep;
  }

  lemma PassDrops(s: Scheduler, now: int, queue: seq<Entry>, taken: seq<Entry>, k: nat)
    requires Pass(s, now, queue, taken) && k < |queue| && queue[k].fireTime <= now && !IsLive(s.timers, queue[k])
    ensures Pass(s, now, RemoveAt(queue, k), taken)
  {
    KeepRemoved(queue, k, After(now));
    KeepRemoved(queue, k, DueAndLive(s.timers, now));
    assert forall x :: x in RemoveAt(queue, k) ==> x in queue;
    hide Keep;
  }

  lemma PassTakes(s: Scheduler, now: int, queue: seq<Entry>, taken: seq<Entry>, k: nat)
    requires Pass(s, now, queue, taken) && IsEarliest(queue, k) && queue[k].fireTime <= now && IsLive(s.timers, queue[k])
    ensures Pass(s, now, RemoveAt(queue, k), taken + [queue[k]])
  {
    TakenInOrder(queue, taken, k);
    KeepRemoved(queue, k, After(now));
    KeepRemoved(queue, k, DueAndLive(s.timers, now));
    hide Keep, RemoveAt, IsEarliest, InFireOrder;
    assert multiset(taken + [queue[k]]) == multiset(taken) + multiset{queue[k]};
  }

  lemma TakenInOrder(queue: seq<Entry>, taken: seq<Entry>, k: nat)
    requires IsEarliest(queue, k) && InFireOrder(taken)
    requires forall i, j :: 0 <= i < |taken| && 0 <= j < |queue| ==> taken[i].fireTime <= queue[j].fireTime
    ensures InFireOrder(taken + [queue[k]])
    ensures forall i, j :: 0 <= i < |taken| + 1 && 0 <= j < |queue| - 1 ==>
              (taken + [queue[k]])[i].fireTime <= RemoveAt(queue, k)[j].fireTime
  {
  }

  lemma PassEnds(s: Scheduler, now: int, queue: seq<Entry>, taken: seq<Entry>)
    requires Pass(s, now, queue, taken) && forall i :: 0 <= i < |queue| ==> queue[i].fireTime > now
    ensures IsCollection(s, now, taken) && queue == NotDue(s.queue, now)
  {
    KeepNoneOrAll(queue, After(now));
    KeepNoneOrAll(queue, DueAndLive(s.timers, now));
    hide Keep;
  }
}
