/** What every step of the timer scheduler keeps, and what follows over whole runs. */
module TimerProofs {
  import opened TimerSpec

  // ----- records under each kind of step -----

  lemma RemovedFromMultiset<T>(q: seq<T>, k: nat)
    requires k < |q|
    ensures multiset(RemoveAt(q, k)) == multiset(q) - multiset{q[k]}
  {
    assert q == q[..k] + [q[k]] + q[k + 1..];
  }

  lemma RecordsPushed(s: Scheduler, s': Scheduler, x: Entry)
    requires s'.queue == s.queue + [x] && s'.inFlight == s.inFlight
    ensures Records(s') == Records(s) + multiset{x}
  {
  }

  lemma RecordsRemoved(s: Scheduler, s': Scheduler, k: nat)
    requires k < |s.inFlight| && s'.queue == s.queue && s'.inFlight == RemoveAt(s.inFlight, k)
    ensures Records(s') == Records(s) - multiset{s.inFlight[k].entry}
  {
    assert FlightEntries(s'.inFlight) == RemoveAt(FlightEntries(s.inFlight), k);
    RemovedFromMultiset(FlightEntries(s.inFlight), k);
  }

  lemma {:induction false} KeepMultiset(q: seq<Entry>, p: Entry -> bool, x: Entry)
    ensures multiset(Keep(q, p))[x] == if p(x) then multiset(q)[x] else 0
  {
    if q != [] {
      KeepMultiset(q[1..], p, x);
      assert q == [q[0]] + q[1..];
    }
  }

  lemma FlightsCollected(s: Scheduler, executor: nat, now: int, due: seq<Entry>)
    ensures FlightEntries(Collected(s, executor, now, due).inFlight) == FlightEntries(s.inFlight) + due
  {
    hide NotDue, MarkRunning;
  }

  /** How often a record exists after collecting. */
  lemma CountCollected(s: Scheduler, executor: nat, now: int, due: seq<Entry>, x: Entry)
    requires IsCollection(s, now, due)
    ensures Records(Collected(s, executor, now, due))[x]
         == multiset(FlightEntries(s.inFlight))[x] + if x.fireTime > now || IsLive(s.timers, x) then multiset(s.queue)[x] else 0
  {
    KeepMultiset(s.queue, DueAndLive(s.timers, now), x);
    KeepMultiset(s.queue, After(now), x);
    FlightsCollected(s, executor, now, due);
    hide FlightEntries, Flights, MarkRunning, Keep;
    assert multiset(FlightEntries(s.inFlight) + due) == multiset(FlightEntries(s.inFlight)) + multiset(due);
  }

  /** Collecting moves the live due entries into flight, keeps what is not due, and drops the rest. */
  lemma RecordsCollected(s: Scheduler, executor: nat, now: int, due: seq<Entry>)
    requires IsCollection(s, now, due)
    ensures Records(Collected(s, executor, now, due)) <= Records(s)
    ensures forall x :: x in Records(s) && IsLive(s.timers, x) ==> x in Records(Collected(s, executor, now, due))
  {
    hide IsCollection, Collected, IsLive;
    var s' := Collected(s, executor, now, due);
    forall x
      ensures Records(s')[x] <= Records(s)[x]
      ensures x in Records(s) && IsLive(s.timers, x) ==> x in Records(s')
    {
      CountCollected(s, executor, now, due, x);
    }
  }

  // ----- the invariant is inductive -----

  lemma InitInv()
    ensures Inv(EMPTY)
  {
  }

  /** A step that changes no record, no generation and no registered timer's `active` keeps the invariant. */
  lemma QuietStep(s: Scheduler, id: nat, t: TimerState)
    requires Inv(s) && id in s.timers
    requires t.generation == s.timers[id].generation
    requires t.registered ==> s.timers[id].registered && t.active == s.timers[id].active
    ensures Inv(SetTimer(s, id, t))
  {
    var s' := SetTimer(s, id, t);
    assert Records(s') == Records(s);
    assert forall x :: IsCurrent(s', id, x) <==> IsCurrent(s, id, x);
    ActiveTransfer(s, s', id);
  }

  /** Timers other than `id` keep their records and fields. */
  lemma ActiveTransfer(s: Scheduler, s': Scheduler, id: nat)
    requires ActiveHasRecord(s) && s'.timers.Keys == s.timers.Keys && id in s.timers
    requires forall j :: j in s.timers && j != id ==>
               s'.timers[j].registered == s.timers[j].registered && s'.timers[j].active == s.timers[j].active
               && s'.timers[j].generation == s.timers[j].generation
    requires forall x: Entry :: x.id != id ==> (x in Records(s) <==> x in Records(s'))
    requires s'.timers[id].registered ==> (s'.timers[id].active <==> exists x :: IsCurrent(s', id, x))
    ensures ActiveHasRecord(s')
  {
    hide Records;
    forall j | j in s'.timers && s'.timers[j].registered
      ensures s'.timers[j].active <==> exists x :: IsCurrent(s', j, x)
    {
      if j != id {
        assert forall x :: IsCurrent(s', j, x) <==> IsCurrent(s, j, x);
      }
    }
  }

  lemma CreatedInv(s: Scheduler)
    requires Inv(s)
    ensures Inv(Created(s))
  {
    var s' := Created(s);
    assert Records(s') == Records(s);
    hide Records;
    forall j | j in s'.timers && s'.timers[j].registered
      ensures s'.timers[j].active <==> exists x :: IsCurrent(s', j, x)
    {
      if j != s.nextId {
        assert forall x :: IsCurrent(s', j, x) <==> IsCurrent(s, j, x);
      } else {
        assert forall x :: !IsCurrent(s', j, x);
      }
    }
  }

  /** Raising the generation leaves every existing record behind. */
  lemma RaisedInv(s: Scheduler, s': Scheduler, id: nat)
    requires Inv(s) && id in s.timers && id in s'.timers
    requires s'.timers == s.timers[id := s'.timers[id]] && s'.nextId == s.nextId
    requires s'.timers[id].generation == s.timers[id].generation + 1 && !s'.timers[id].active
    requires Records(s') <= Records(s) && forall x: Entry :: x.id != id && x in Records(s) ==> x in Records(s')
    ensures Inv(s')
  {
    hide Records;
    assert forall x :: !IsCurrent(s', id, x);
    ActiveTransfer(s, s', id);
  }

  /** Raising the generation and queueing one entry on it. */
  lemma PushedInv(s: Scheduler, s': Scheduler, id: nat, x: Entry)
    requires Inv(s) && id in s.timers && id in s'.timers
    requires s'.timers == s.timers[id := s'.timers[id]] && s'.nextId == s.nextId
    requires s'.timers[id].generation == s.timers[id].generation + 1 && s'.timers[id].active
    requires x.id == id && x.generation == s'.timers[id].generation
    requires exists base :: base <= Records(s) && Records(s') == base + multiset{x}
                            && forall y: Entry :: y.id != id && y in Records(s) ==> y in base
    ensures Inv(s')
  {
    hide Records;
    var base :| base <= Records(s) && Records(s') == base + multiset{x}
                && forall y: Entry :: y.id != id && y in Records(s) ==> y in base;
    assert forall y :: y in base ==> y in Records(s);
    assert x !in Records(s);
    assert IsCurrent(s', id, x);
    ActiveTransfer(s, s', id);
  }

  lemma StartedInv(s: Scheduler, id: nat, when: int)
    requires Inv(s) && id in s.timers
    ensures Inv(Started(s, id, when))
  {
    var s' := Started(s, id, when);
    var x := Entry(when, id, s'.timers[id].generation);
    RecordsPushed(s, s', x);
    hide Records, Inv;
    assert Records(s') == Records(s) + multiset{x};
    PushedInv(s, s', id, x);
  }

  lemma StoppedInv(s: Scheduler, id: nat)
    requires Inv(s) && id in s.timers
    ensures Inv(Stopped(s, id)) && Inv(Unregistered(s, id))
  {
    assert Records(Stopped(s, id)) == Records(s) == Records(Unregistered(s, id));
    hide Records, Inv;
    RaisedInv(s, Stopped(s, id), id);
    RaisedInv(s, Unregistered(s, id), id);
  }

  /** Collecting changes no timer but for `running`. */
  lemma TimersCollected(s: Scheduler, executor: nat, now: int, due: seq<Entry>, id: nat)
    requires id in s.timers
    ensures var s' := Collected(s, executor, now, due);
      s'.nextId == s.nextId && s'.timers.Keys == s.timers.Keys && s'.timers[id] == s.timers[id].(running := s'.timers[id].running)
  {
    hide NotDue, Flights;
  }

  lemma CollectedInv(s: Scheduler, executor: nat, now: int, due: seq<Entry>)
    requires Inv(s) && IsCollection(s, now, due)
    ensures Inv(Collected(s, executor, now, due))
  {
    var s' := Collected(s, executor, now, due);
    RecordsCollected(s, executor, now, due);
    forall id | id in s.timers
      ensures s'.nextId == s.nextId && s'.timers.Keys == s.timers.Keys && s'.timers[id] == s.timers[id].(running := s'.timers[id].running)
    {
      TimersCollected(s, executor, now, due, id);
    }
    hide Records, Collected, IsCollection;
    assert s'.timers.Keys == s.timers.Keys && s'.nextId == s.nextId;
    FewerRecords(s, s');
  }

  /** Losing records, but none that is live, and changing no more than `running`. */
  lemma FewerRecords(s: Scheduler, s': Scheduler)
    requires Inv(s) && s'.nextId == s.nextId && s'.timers.Keys == s.timers.Keys
    requires forall id :: id in s.timers ==> s'.timers[id] == s.timers[id].(running := s'.timers[id].running)
    requires Records(s') <= Records(s)
    requires forall x :: x in Records(s) && IsLive(s.timers, x) ==> x in Records(s')
    ensures Inv(s')
  {
    hide Records;
    assert forall x :: x in Records(s') ==> x in Records(s);
    forall j | j in s'.timers && s'.timers[j].registered
      ensures s'.timers[j].active <==> exists x :: IsCurrent(s', j, x)
    {
      if s.timers[j].active {
        var x :| IsCurrent(s, j, x);
        assert IsCurrent(s', j, x);
      } else {
        assert forall x :: IsCurrent(s', j, x) ==> IsCurrent(s, j, x);
      }
    }
  }

  /** The record at `k` leaves; a repeating timer still on its generation is queued again. */
  lemma RecordsFinalized(s: Scheduler, k: nat)
    requires k < |s.inFlight| && s.inFlight[k].entry.id in s.timers
    ensures var x := s.inFlight[k].entry;
      var s' := Finalized(s, k);
      var t := s'.timers[x.id];
      x in Records(s) && s'.timers == s.timers[x.id := t] && s'.nextId == s.nextId
      && Records(s') == if Repeats(s, k) then Records(s) - multiset{x} + multiset{Entry(x.fireTime + t.intervalMs, x.id, t.generation)}
                        else Records(s) - multiset{x}
  {
    var x := s.inFlight[k].entry;
    var s1 := s.(inFlight := RemoveAt(s.inFlight, k));
    var s' := Finalized(s, k);
    assert x in Records(s) by { assert FlightEntries(s.inFlight)[k] == x; }
    RecordsRemoved(s, s1, k);
    hide FlightEntries, RemoveAt;
    assert Records(s) == multiset(s.queue) + multiset(FlightEntries(s.inFlight));
    if Repeats(s, k) {
      RecordsPushed(s1, s', Entry(x.fireTime + s.timers[x.id].intervalMs, x.id, s.timers[x.id].generation + 1));
    }
  }

  lemma FinalizedInv(s: Scheduler, k: nat)
    requires Inv(s) && k < |s.inFlight| && s.inFlight[k].entry.id in s.timers
    ensures Inv(Finalized(s, k))
  {
    hide Records, Inv, FlightEntries, RemoveAt;
    var x := s.inFlight[k].entry;
    var t := s.timers[x.id].(running := false);
    var s' := Finalized(s, k);
    RecordsFinalized(s, k);
    if Repeats(s, k) {
      var y := Entry(x.fireTime + t.intervalMs, x.id, t.generation + 1);
      hide Repeats, Finalized;
      assert Records(s') == (Records(s) - multiset{x}) + multiset{y};
      PushedInv(s, s', x.id, y);
    } else if t.active && t.singleShot {
      RaisedInv(s, s', x.id);
    } else {
      DroppedInv(s, s', x);
    }
  }

  /** Dropping a record that is not the current one of an active timer. */
  lemma DroppedInv(s: Scheduler, s': Scheduler, x: Entry)
    requires Inv(s) && x in Records(s) && x.id in s.timers
    requires !s.timers[x.id].active || s.timers[x.id].generation != x.generation
    requires s'.timers == s.timers[x.id := s.timers[x.id].(running := false)] && s'.nextId == s.nextId
    requires Records(s') == Records(s) - multiset{x}
    ensures Inv(s')
  {
    hide Records, Inv;
    FewerRecords(s, s');
  }

  lemma BegunInv(s: Scheduler, k: nat)
    requires Inv(s) && k < |s.inFlight|
    ensures Inv(Begun(s, k))
  {
    var s' := Begun(s, k);
    assert FlightEntries(s'.inFlight) == FlightEntries(s.inFlight);
    hide Records;
    assert forall id, x :: id in s.timers ==> (IsCurrent(s', id, x) <==> IsCurrent(s, id, x)) by {
      assert Records(s') == Records(s);
    }
  }

  lemma NextKeepsInv(s: Scheduler, step: Step, s': Scheduler)
    requires Inv(s) && Next(s, step, s')
    ensures Inv(s')
  {
    hide Inv, Collected, Finalized, Started, Stopped, Unregistered, Created;
    match step
    case Create => CreatedInv(s);
    case SetInterval(id, ms) => QuietStep(s, id, s'.timers[id]);
    case SetSingleShot(id, flag) => QuietStep(s, id, s'.timers[id]);
    case SetCallback(id, present) => QuietStep(s, id, s'.timers[id]);
    case Start(id, when) => StartedInv(s, id, when);
    case Stop(id) => StoppedInv(s, id);
    case Unregister(id) => StoppedInv(s, id);
    case Orphan(id) => QuietStep(s, id, s'.timers[id]);
    case Deactivate(id) => QuietStep(s, id, s'.timers[id]);
    case Collect(executor, now, due) => CollectedInv(s, executor, now, due);
    case Begin(k) => BegunInv(s, k);
    case Finalize(k) => FinalizedInv(s, k);
  }

  lemma {:induction false} RunKeepsInv(states: seq<Scheduler>, steps: seq<Step>, n: nat)
    requires IsRun(states, steps) && n <= |steps|
    ensures Inv(states[n])
  {
    hide Inv, Next;
    if n == 0 {
      InitInv();
    } else {
      RunKeepsInv(states, steps, n - 1);
      NextKeepsInv(states[n - 1], steps[n - 1], states[n]);
    }
  }
}
