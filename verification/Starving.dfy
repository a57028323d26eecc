/** A first waiter that starves, live and past its bound: the room it has gained is kept for it, and when it is not. */
module Starving {
  import opened Options
  import opened Reservations
  import opened Admission
  import opened Order
  import opened Runs
  import opened Passing
  import opened Draining

  // --- A starved first waiter ----------------------------------------------------------

  /** The first waiter is `w`, live, and past its bound or the nightly's. */
  predicate Starves(others: seq<Reservation>, now: real, w: Starved) {
    var first := OldestWaiter(others);
    && first.Some?
    && var entry := others[first.value];
       var waited := now - entry.WaitingSince();
       && IsEntryOf(entry, w) && entry.refreshed.Some? && IsLive(entry, now)
       && waited >= DrainAfter(entry) && (entry.nightly || waited > DrainMax(entry))
  }

  /** To the request of `pid` too the room covers what `w` wants. */
  predicate SeesRoom(others: seq<Reservation>, machine: Machine, pid: int, w: Starved) {
    var seen := SeenMb(others, machine, pid);
    seen.Some? ==> seen.value + Held(others, Short) - w.floorMb >= w.wants
  }

  /** It does if and only if its process's own reservations use no more than the room has to spare. */
  lemma SeesRoomExactly(others: seq<Reservation>, machine: Machine, pid: int, w: Starved)
    requires OldestWaiter(others).Some?
    ensures var level := LevelAt(others, machine);
            SeesRoom(others, machine, pid, w) <==>
            level.None? || OwnUsed(others, machine.processes, pid)
                           <= level.value + Held(others, Short) - w.floorMb - w.wants
  {
    SeenIsLevel(others, machine, pid);
  }

  /** Beside the request that tries the room is covered as it was. */
  lemma RoomBesideTry(rs: seq<Reservation>, level: Option<real>, e: Event, level': Option<real>, w: Starved,
                      capacityMb: real)
    requires RoomCovers(rs, level, w, capacityMb) && Accounted(rs, level, e, level') && AdmitsLasting(rs, e)
    ensures var others := Others(rs, e.machine, e.action.q);
            var shown := LevelAt(others, e.machine);
            && capacityMb - Held(others, Lasting) >= w.wants
            && (shown.Some? ==> shown.value + Held(others, Short) - w.floorMb >= w.wants)
            && (HoldsNothing(others, e.action.q.pid) ==> SeesRoom(others, e.machine, e.action.q.pid, w))
  {
    var q := e.action.q;
    var others, entry := Others(rs, e.machine, q), HoldingEntry(e.machine, q);
    LastingAndShort(rs);
    LastingAndShort(others);
    HeldWithOneMore(others, entry, All);
    KeptHoldsAtMost(rs, Living(e.machine.processes), Lasting);
    KeptHoldsAtMost(LivingOf(rs, e), NotWaiting(q.pid, q.name, q.since), Lasting);
    if OldestWaiter(others).Some? {
      SeenIsLevel(others, e.machine, q.pid);
    }
  }

  lemma {:induction false} OldAndLasting(rs: seq<Reservation>, since: real)
    ensures Held(rs, All) - Held(rs, ShortOrSince(since)) <= Held(rs, Lasting)
    ensures Held(rs, Short) <= Held(rs, ShortOrSince(since))
  {
    if rs != [] {
      OldAndLasting(rs[1..], since);
    }
  }

  /** While its room is covered the ledger could start a starved first waiter, and drains for it strictly. */
  lemma StarvedIsDrained(others: seq<Reservation>, machine: Machine, q: Request, w: Starved, capacityMb: real)
    requires Starves(others, machine.now, w) && machine.capacityMb == Some(capacityMb)
    requires forall r :: r in others && r.Waits() ==> r.megabytes == 0.0
    requires capacityMb - Held(others, Lasting) >= w.wants
    requires SeesRoom(others, machine, q.pid, w)
    ensures var first := OldestWaiter(others).value;
            var drain := DrainState(first, others, machine.now, machine.capacityMb, SeenMb(others, machine, q.pid));
            drain.IsDrain() && (others[first].nightly || drain.PastBound?)
  {
    var first := OldestWaiter(others).value;
    assert others[first] in others;
    var since := others[first].WaitingSince();
    HeldWithout(others, first, All);
    HeldWithout(others, first, ShortOrSince(since));
    OldAndLasting(others, since);
  }

  /** So a request behind it is held to that drain. */
  lemma StarvedHoldsBack(others: seq<Reservation>, machine: Machine, q: Request, w: Starved, capacityMb: real)
    requires Starves(others, machine.now, w) && machine.capacityMb == Some(capacityMb)
    requires forall r :: r in others && r.Waits() ==> r.megabytes == 0.0
    requires capacityMb - Held(others, Lasting) >= w.wants
    requires SeesRoom(others, machine, q.pid, w)
    requires Before(w.place, q.PlaceAt(machine.now))
    ensures DrainedWaiter(others, machine, q) == OldestWaiter(others)
  {
    var first := OldestWaiter(others).value;
    var place, seen := q.PlaceAt(machine.now), SeenMb(others, machine, q.pid);
    StarvedIsDrained(others, machine, q, w, capacityMb);
    assert DrainsAhead(others, first, place, machine.now, machine.capacityMb, seen);
    forall j: nat | j != first && DrainsAhead(others, j, place, machine.now, machine.capacityMb, seen)
      ensures Earlier(others, first, j) {
    }
    DrainedForIsEarliest(others, place, machine.now, machine.capacityMb, seen, first);
  }

  /** A run in which the starved waiter stays first: every lasting admission is behind it and of a process that holds
      nothing itself, or sees the room; none merges. */
  ghost predicate StarvedRun(rs: seq<Reservation>, levels: seq<Option<real>>, events: seq<Event>, w: Starved)
    requires |levels| == |events| + 1
    decreases |events|
  {
    events != [] ==>
      && Accounted(rs, levels[0], events[0], levels[1])
      && !Merging(rs, events[0])
      && (AdmitsLasting(rs, events[0]) ==> IsBehindStarved(rs, events[0], w))
      && StarvedRun(Next(rs, events[0]), levels[1..], events[1..], w)
  }

  predicate IsBehindStarved(rs: seq<Reservation>, e: Event, w: Starved)
    requires e.action.Try?
  {
    var q := e.action.q;
    var others := Others(rs, e.machine, q);
    && Starves(others, e.machine.now, w) && Before(w.place, q.PlaceAt(e.machine.now))
    && (HoldsNothing(others, q.pid) || SeesRoom(others, e.machine, q.pid, w))
  }

  lemma StarvedStepIsStrict(rs: seq<Reservation>, level: Option<real>, e: Event, level': Option<real>, w: Starved,
                            capacityMb: real)
    requires RoomCovers(rs, level, w, capacityMb) && Accounted(rs, level, e, level') && AdmitsLasting(rs, e)
    requires e.machine.capacityMb == Some(capacityMb) && WaitersHoldNothing(rs) && IsBehindStarved(rs, e, w)
    ensures GoesByRoom(rs, e, w)
  {
    var q := e.action.q;
    var others := Others(rs, e.machine, q);
    RoomBesideTry(rs, level, e, level', w, capacityMb);
    StarvedIsDrained(others, e.machine, q, w, capacityMb);
    StarvedHoldsBack(others, e.machine, q, w, capacityMb);
    var first := OldestWaiter(others).value;
    assert others[first] in others;
    SeesRoomExactly(others, e.machine, q.pid, w);
    ExceptionFiresExactly(others, first, e.machine, q.pid, capacityMb);
  }

  /** While a first waiter starves, live and past its bound, the room it has gained is never lost: over every such run,
      once the room covers what it wants, it goes on covering it. */
  lemma {:induction false} StarvedKeepsRoom(rs: seq<Reservation>, levels: seq<Option<real>>, events: seq<Event>,
                                            w: Starved, capacityMb: real)
    requires |levels| == |events| + 1 && FixedCapacity(events, capacityMb) && StarvedRun(rs, levels, events, w)
    requires WaitersHoldNothing(rs) && RoomCovers(rs, levels[0], w, capacityMb)
    ensures RoomCovers(After(rs, events), levels[|events|], w, capacityMb)
    decreases |events|
  {
    if events != [] {
      var e := events[0];
      if AdmitsLasting(rs, e) {
        StarvedStepIsStrict(rs, levels[0], e, levels[1], w, capacityMb);
      }
      StepKeepsRoom(rs, levels[0], e, levels[1], w, capacityMb);
      NextWaitersHoldNothing(rs, e);
      StarvedKeepsRoom(Next(rs, e), levels[1..], events[1..], w, capacityMb);
    }
  }

  /** So after such a run, once the short requests have ended and what ended has given its megabytes back, the waiter's
      next try passes the ledger's clause and is admitted with its floor; and with no larger floor than its entry has,
      and nothing held by its own process, it is admitted. */
  lemma StarvedGetsIn(rs: seq<Reservation>, levels: seq<Option<real>>, events: seq<Event>, w: Starved, capacityMb: real,
                      machine: Machine, q: Request)
    requires |levels| == |events| + 1 && FixedCapacity(events, capacityMb) && StarvedRun(rs, levels, events, w)
    requires WaitersHoldNothing(rs) && RoomCovers(rs, levels[0], w, capacityMb)
    requires var waiter := Waiter(w.place, w.name, w.wants); IsFirst(After(rs, events), waiter) && Retries(q, waiter)
    requires machine.capacityMb == Some(capacityMb) && Held(Others(After(rs, events), machine, q), Short) == 0.0
    ensures var others := Others(After(rs, events), machine, q);
            var level, shown := levels[|events|], LevelAt(others, machine);
            && LedgerClause(others, w.wants, Some(capacityMb))
            && (FloorClause(others, w.wants, q.minFreeMb, machine.availableMb, machine.processes, q.pid) ==>
                  Admits(others, machine, q))
            && (&& level.Some? == shown.Some? && q.minFreeMb <= w.floorMb && HoldsNothing(others, q.pid)
                && (level.Some? ==> shown.value + Held(others, All) >= level.value + Held(After(rs, events), All)) ==>
                  Admits(others, machine, q))
  {
    var end := After(rs, events);
    var others := Others(end, machine, q);
    StarvedKeepsRoom(rs, levels, events, w, capacityMb);
    LastingAndShort(end);
    LastingAndShort(others);
    KeptHoldsAtMost(end, Living(machine.processes), Lasting);
    KeptHoldsAtMost(Kept(end, Living(machine.processes)), NotWaiting(q.pid, q.name, q.since), Lasting);
    FirstWaiterIsOrdered(end, Waiter(w.place, w.name, w.wants), machine, q);
    GrowthSeen(others, machine.processes, q.pid);
    if HoldsNothing(others, q.pid) {
      NothingUsed(others, machine.processes, q.pid);
    }
  }

  // --- A request that does not see the room ---------------------------------------------

  /** A waiting entry for 6500 MB past its bound, and a run of 6000 MB begun later. */
  predicate StarvesBesideLarge(rs: seq<Reservation>) {
    && |rs| == 2
    && IsEntryOf(rs[0], Starved(Place(1, 0.0, 9), "waiter", 6500.0, 0.0)) && rs[0].megabytes == 0.0 && !rs[0].isShort
    && rs[0].HeldSince() == 0.0 && rs[0].startTicks.None? && rs[0].refreshed == Some(10000.0)
    && rs[0].drainAfter.None? && rs[0].drainMax.None? && !rs[0].waitsOnFloor
    && rs[1].pid == 1 && !rs[1].Waits() && rs[1].megabytes == 6000.0 && !rs[1].isShort && rs[1].HeldSince() == 5.0
    && rs[1].startTicks.None?
  }

  /** 10000 MB are available, and the large run's 6000 MB are all resident. */
  predicate IsLargeMachine(machine: Machine) {
    && machine.now == 10000.0 && machine.capacityMb == Some(20000.0) && machine.availableMb == Some(10000.0)
    && machine.processes == map[9 := Process(false, 1, 0.0), 1 := Process(false, 1, 6000.0)]
  }

  /** The large run's own process asks for 4000 MB more. */
  predicate IsSmallOfLarge(q: Request) {
    && q.pid == 1 && q.megabytes == 4000.0 && q.minFreeMb == 0.0 && q.since.None? && q.expectedSeconds.None?
    && !q.nightly && !q.declaredShort
  }

  lemma HeldOfTwo(rs: seq<Reservation>, share: Share)
    requires |rs| == 2
    ensures Held(rs, share) == Part(rs[0], share) + Part(rs[1], share)
    ensures Held(Without(rs, 0), share) == Part(rs[1], share) && Without(rs, 0) == [rs[1]]
  {
    assert rs == [rs[0]] + [rs[1]];
    HeldOfConcat([rs[0]], [rs[1]], share);
    assert Without(rs, 0) == [rs[1]];
  }

  lemma KeptBoth(rs: seq<Reservation>, test: Test)
    requires |rs| == 2 && Passes(rs[0], test) && Passes(rs[1], test)
    ensures Kept(rs, test) == rs
  {
    assert [rs[1]][1..] == [] && Kept([rs[1]], test) == [rs[1]];
    assert rs[1..] == [rs[1]] && rs == [rs[0]] + [rs[1]];
  }

  lemma FirstOfTwo(rs: seq<Reservation>)
    requires |rs| == 2 && rs[0].Waits() && !rs[1].Waits()
    ensures OldestWaiter(rs) == Some(0)
  {
    assert FirstWaiterAmong(rs, 1) == Some(0);
  }

  /** The request sees 4000 MB of the 10000, as its own process uses 6000. */
  lemma LargeSeesLittle(rs: seq<Reservation>, machine: Machine, q: Request)
    requires StarvesBesideLarge(rs) && IsLargeMachine(machine) && IsSmallOfLarge(q)
    ensures Others(rs, machine, q) == rs && OldestWaiter(rs) == Some(0)
    ensures LevelAt(rs, machine) == Some(10000.0) && SeenMb(rs, machine, q.pid) == Some(4000.0)
    ensures Growth(rs, machine.processes, q.pid) == 6000.0
  {
    KeptBoth(rs, Living(machine.processes));
    KeptBoth(rs, NotWaiting(q.pid, q.name, q.since));
    FirstOfTwo(rs);
    GrowthSeen(rs, machine.processes, q.pid);
    assert rs[1..][1..] == [];
    assert Outside(rs[1..], machine.processes) == 0.0 && OwnUsed(rs[1..], machine.processes, 1) == 6000.0;
  }

  lemma LargeIsDrained(rs: seq<Reservation>)
    requires StarvesBesideLarge(rs)
    ensures DrainState(0, rs, 10000.0, Some(20000.0), Some(4000.0)).PastBound?
  {
    HeldOfTwo(rs, All);
    HeldOfTwo(rs, ShortOrSince(0.0));
  }

  lemma LargeIsLetGo(rs: seq<Reservation>)
    requires StarvesBesideLarge(rs)
    ensures DrainAllows(0, rs, 4000.0, Some(20000.0), Some(4000.0), None)
  {
    HeldOfTwo(rs, All);
    HeldOfTwo(rs, Short);
    HeldOfTwo(rs, LastingUpTo(SMALL_REQUEST_MB));
    assert In(Without(rs, 0)[0], LastingAbove(SMALL_REQUEST_MB));
  }

  lemma LargeIsInOrder(rs: seq<Reservation>, place: Place)
    requires StarvesBesideLarge(rs)
    ensures OrderAllows(rs, 4000.0, place, Some(20000.0))
  {
    FirstOfTwo(rs);
    HeldOfTwo(rs, Lasting);
  }

  lemma LargeIsAdmitted(rs: seq<Reservation>, machine: Machine, q: Request)
    requires StarvesBesideLarge(rs) && IsLargeMachine(machine) && IsSmallOfLarge(q)
    ensures Admits(rs, machine, q)
  {
    var place := q.PlaceAt(machine.now);
    LargeSeesLittle(rs, machine, q);
    LargeIsDrained(rs);
    LargeIsLetGo(rs);
    LargeIsInOrder(rs, place);
    HeldOfTwo(rs, All);
    DrainedForIsEarliest(rs, place, machine.now, machine.capacityMb, Some(4000.0), 0);
  }

  /** A process with a large reservation of its own does not see the covered room, and its small request takes it. */
  lemma OwnReservationTakesRoom(rs: seq<Reservation>, machine: Machine, q: Request)
    requires StarvesBesideLarge(rs) && IsLargeMachine(machine) && IsSmallOfLarge(q)
    ensures var e, w := Event(machine, Try(q)), Starved(Place(1, 0.0, 9), "waiter", 6500.0, 0.0);
            && Starves(Others(rs, machine, q), machine.now, w) && AdmitsLasting(rs, e)
            && RoomCovers(rs, Some(10000.0), w, 20000.0) && Accounted(rs, Some(10000.0), e, Some(6000.0))
            && !RoomCovers(Next(rs, e), Some(6000.0), w, 20000.0)
  {
    LargeSeesLittle(rs, machine, q);
    LargeIsAdmitted(rs, machine, q);
    HeldOfTwo(rs, Short);
    HeldOfTwo(rs, Lasting);
    HeldWithOneMore(rs, HoldingEntry(machine, q), All);
    HeldWithOneMore(rs, HoldingEntry(machine, q), Short);
  }

  /** There is such a ledger. */
  lemma SomeStarveBesideLarge()
    ensures StarvesBesideLarge(
              [Reservation(9, 0.0, None, 0.0, "waiter", None, false, None, false,
                           Some(6500.0), Some(0.0), Some(10000.0), None, None, None, false, None),
               Reservation(1, 5.0, None, 6000.0, "large", Some(5.0), false, None, false,
                           None, None, None, None, None, None, false, None)])
  {
  }
}
