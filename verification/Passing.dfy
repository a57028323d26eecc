/** No passing, over whole runs: what goes behind the first waiter leaves room for it. */
module Passing {
  import opened Options
  import opened Reservations
  import opened Admission
  import opened Order
  import opened Runs

  /** A waiting request, through every rewrite of its entry. */
  datatype Waiter = Waiter(place: Place, name: string, wants: Mb)

  predicate IsFirst(rs: seq<Reservation>, w: Waiter) {
    var first := OldestWaiter(rs);
    && first.Some?
    && rs[first.value].PlaceOf() == w.place
    && rs[first.value].name == w.name
    && rs[first.value].waitingMb == Some(w.wants)
  }

  /** `w` is the first waiter before the run, after it, and after every step of it. */
  predicate StaysFirst(rs: seq<Reservation>, w: Waiter, events: seq<Event>)
    decreases |events|
  {
    IsFirst(rs, w) && (events != [] ==> StaysFirst(Next(rs, events[0]), w, events[1..]))
  }

  predicate Behind(e: Event, w: Waiter)
    requires e.action.Try?
  {
    Before(w.place, e.action.q.PlaceAt(e.machine.now))
  }

  /** A step that may take what the first waiter's order does not guard: a lasting request that does not
      come behind it (the nightly's, or one that began waiting earlier), or a merge. */
  predicate GoesAhead(rs: seq<Reservation>, e: Event, w: Waiter) {
    (AdmitsLasting(rs, e) && !Behind(e, w)) || Merging(rs, e)
  }

  /** The time of the run's last such step, `mark` when it has none. */
  function LastAhead(rs: seq<Reservation>, w: Waiter, events: seq<Event>, mark: real): real
    decreases |events|
  {
    if events == [] then mark
    else LastAhead(Next(rs, events[0]), w, events[1..], if GoesAhead(rs, events[0], w) then events[0].machine.now
                   else mark)
  }

  /** The lasting reservations begun after `mark` are none, or leave the capacity room for `w`. */
  ghost predicate LeavesRoom(rs: seq<Reservation>, w: Waiter, mark: real, capacityMb: real) {
    var passed := Held(rs, LastingAfter(mark));
    passed == 0.0 || passed + w.wants <= capacityMb
  }

  lemma NothingBegunAfter(rs: seq<Reservation>, time: real)
    requires Timed(rs, time)
    ensures Held(rs, LastingAfter(time)) == 0.0
  {
    HoldersAndHeld(rs, LastingAfter(time));
    forall i | 0 <= i < |rs| ensures !In(rs[i], LastingAfter(time)) {
      assert rs[i] in rs;
    }
  }

  /** What a first waiter itself holds counts as begun with its wait. */
  lemma FirstWaiterHoldsNothingNew(others: seq<Reservation>, i: nat, mark: real, time: real)
    requires i < |others| && others[i].Waits() && others[i].WaitingSince() <= mark && Timed(others, time)
    ensures Held(others, LastingAfter(mark)) <= Held(Without(others, i), LastingSince(others[i].WaitingSince()))
  {
    assert others[i] in others;
    HeldWithout(others, i, LastingAfter(mark));
    HeldAtMost(Without(others, i), LastingAfter(mark), LastingSince(others[i].WaitingSince()));
  }

  /** A lasting admission behind the first waiter leaves it room. */
  lemma PassingLeavesRoom(rs: seq<Reservation>, e: Event, w: Waiter, mark: real, time: real, capacityMb: real)
    requires AdmitsLasting(rs, e) && Behind(e, w) && e.machine.capacityMb == Some(capacityMb)
    requires Timed(rs, time) && w.place.since <= mark
    requires IsFirst(Next(rs, e), w)
    ensures LeavesRoom(Next(rs, e), w, mark, capacityMb)
  {
    var q := e.action.q;
    var others := Others(rs, e.machine, q);
    var entry := HoldingEntry(e.machine, q);
    assert Next(rs, e) == others + [entry];
    OldestWaiterBesideHolder(others, entry);
    var i := OldestWaiter(others).value;
    assert (others + [entry])[i] == others[i];
    OrderKeepsRoom(others, i, q.megabytes, q.PlaceAt(e.machine.now), capacityMb);
    assert Timed(others, time);
    FirstWaiterHoldsNothingNew(others, i, mark, time);
    HeldWithOneMore(others, entry, LastingAfter(mark));
  }

  /** Over a whole run in which `w` stays the first waiter, the lasting reservations begun since the run's
      start, or since its last step ahead of `w`, are none or leave the capacity room for `w`. */
  lemma {:induction false} NoPassing(rs: seq<Reservation>, w: Waiter, events: seq<Event>, mark: real, time: real,
                                     capacityMb: real)
    requires StaysFirst(rs, w, events) && FixedCapacity(events, capacityMb)
    requires Timed(rs, time) && TimedRun(events, time) && w.place.since <= mark <= time
    requires LeavesRoom(rs, w, mark, capacityMb)
    ensures LeavesRoom(After(rs, events), w, LastAhead(rs, w, events, mark), capacityMb)
    decreases |events|
  {
    if events != [] {
      var e := events[0];
      var next := Next(rs, e);
      var now := e.machine.now;
      var mark' := if GoesAhead(rs, e, w) then now else mark;
      NextTimed(rs, e, time);
      if GoesAhead(rs, e, w) {
        NothingBegunAfter(next, now);
      } else if AdmitsLasting(rs, e) {
        PassingLeavesRoom(rs, e, w, mark, time, capacityMb);
      } else {
        NextAddsNothing(rs, e, LastingAfter(mark));
      }
      NoPassing(next, w, events[1..], mark', now, capacityMb);
    }
  }

  // --- The first waiter's own try ------------------------------------------------------

  /** `q` is `w` trying again. */
  predicate Retries(q: Request, w: Waiter) {
    && q.pid == w.place.pid && q.name == w.name && q.since == Some(w.place.since)
    && Rank(q.nightly) == w.place.rank && q.megabytes == w.wants
  }

  /** The first waiter's own try passes the order and is held to no drain: it is admitted exactly when
      there is room. */
  lemma FirstWaiterIsOrdered(rs: seq<Reservation>, w: Waiter, machine: Machine, q: Request)
    requires IsFirst(rs, w) && Retries(q, w)
    ensures var others := Others(rs, machine, q);
            Ordered(others, machine, q) && (Admits(others, machine, q) <==> Fits(others, machine, q))
  {
    var others := Others(rs, machine, q);
    var first := OldestWaiter(rs).value;
    forall i | 0 <= i < |others| && others[i].Waits()
      ensures !Before(others[i].PlaceOf(), q.PlaceAt(machine.now))
    {
      assert others[i] in rs;
      var j :| 0 <= j < |rs| && rs[j] == others[i];
    }
    NobodyAheadNoDrain(others, q.PlaceAt(machine.now), machine.now, machine.capacityMb, SeenMb(others, machine, q.pid));
  }

  /** Beside no holder the first waiter's next try is admitted, whatever its size, floor or drain. */
  lemma NoHolderAdmitsFirst(rs: seq<Reservation>, w: Waiter, machine: Machine, q: Request)
    requires IsFirst(rs, w) && Retries(q, w)
    requires !AnyHolder(Others(rs, machine, q), All)
    ensures Admits(Others(rs, machine, q), machine, q)
  {
    FirstWaiterIsOrdered(rs, w, machine, q);
  }

  /** A run in which `w` stays the first waiter, then the end of every holder that is short or began
      holding by the run's start or its last step ahead of `w`: the next try of `w` passes the ledger
      clause or finds nothing held, and is admitted unless its own floor keeps it out. */
  lemma FirstWaiterGetsIn(rs: seq<Reservation>, w: Waiter, events: seq<Event>, start: real, capacityMb: real,
                          machine: Machine, q: Request)
    requires StaysFirst(rs, w, events) && FixedCapacity(events, capacityMb)
    requires Timed(rs, start) && TimedRun(events, start) && w.place.since <= start
    requires Retries(q, w) && machine.capacityMb == Some(capacityMb)
    requires var mark := LastAhead(rs, w, events, start);
             forall r :: r in Others(After(rs, events), machine, q) && r.megabytes > 0.0 ==> In(r, LastingAfter(mark))
    ensures var others := Others(After(rs, events), machine, q);
            && (LedgerClause(others, w.wants, Some(capacityMb)) || !AnyHolder(others, All))
            && (FloorClause(others, w.wants, q.minFreeMb, machine.availableMb, machine.processes, q.pid) ==>
                  Admits(others, machine, q))
  {
    var end := After(rs, events);
    var mark := LastAhead(rs, w, events, start);
    var others := Others(end, machine, q);
    NothingBegunAfter(rs, start);
    NoPassing(rs, w, events, start, start, capacityMb);
    StaysFirstToTheEnd(rs, w, events);
    KeptHoldsAtMost(end, Living(machine.processes), LastingAfter(mark));
    KeptHoldsAtMost(Kept(end, Living(machine.processes)), NotWaiting(q.pid, q.name, q.since), LastingAfter(mark));
    forall i | 0 <= i < |others| ensures Part(others[i], All) <= Part(others[i], LastingAfter(mark)) {
      assert others[i] in others;
    }
    HeldAtMost(others, All, LastingAfter(mark));
    HoldersAndHeld(others, All);
    FirstWaiterIsOrdered(end, w, machine, q);
  }

  lemma {:induction false} StaysFirstToTheEnd(rs: seq<Reservation>, w: Waiter, events: seq<Event>)
    requires StaysFirst(rs, w, events)
    ensures IsFirst(After(rs, events), w)
    decreases |events|
  {
    if events != [] {
      StaysFirstToTheEnd(Next(rs, events[0]), w, events[1..]);
    }
  }

  /** While a first waiter larger than the capacity waits and nothing goes ahead of it, the lasting
      reservations only shrink. */
  lemma {:induction false} TooLargeWaiterDrains(rs: seq<Reservation>, w: Waiter, events: seq<Event>, capacityMb: real)
    requires StaysFirst(rs, w, events) && FixedCapacity(events, capacityMb) && w.wants > capacityMb
    requires NothingAhead(rs, w, events)
    ensures Held(After(rs, events), Lasting) <= Held(rs, Lasting)
    decreases |events|
  {
    if events != [] {
      var e := events[0];
      if AdmitsLasting(rs, e) {
        var others := Others(rs, e.machine, e.action.q);
        OldestWaiterBesideHolder(others, HoldingEntry(e.machine, e.action.q));
        TooLargeHoldsAllBack(others, OldestWaiter(others).value, e.action.q.megabytes,
                             e.action.q.PlaceAt(e.machine.now), capacityMb);
        assert false;
      }
      NextAddsNothing(rs, e, Lasting);
      TooLargeWaiterDrains(Next(rs, e), w, events[1..], capacityMb);
    }
  }

  predicate NothingAhead(rs: seq<Reservation>, w: Waiter, events: seq<Event>)
    decreases |events|
  {
    events != [] ==> !GoesAhead(rs, events[0], w) && NothingAhead(Next(rs, events[0]), w, events[1..])
  }
}
