/** The drain for a starved waiter: what it keeps while it is strict, and its two exceptions. */
module Draining {
  import opened Options
  import opened Arithmetic
  import opened Reservations
  import opened Admission
  import opened Order
  import opened Runs
  import opened Sequences

  // --- The strict drain ----------------------------------------------------------------

  /** A waiter the ledger drains for, through every rewrite of its entry. */
  datatype Starved = Starved(place: Place, name: string, wants: Mb, floorMb: real)

  predicate IsEntryOf(r: Reservation, w: Starved) {
    && r.PlaceOf() == w.place && r.name == w.name && r.waitingMb == Some(w.wants)
    && EntryFloorMb(r) == w.floorMb
  }

  /** No waiting entry holds memory. */
  ghost predicate WaitersHoldNothing(rs: seq<Reservation>) {
    forall r :: r in rs && r.Waits() ==> r.megabytes == 0.0
  }

  lemma NextWaitersHoldNothing(rs: seq<Reservation>, e: Event)
    requires WaitersHoldNothing(rs) && !Merging(rs, e)
    ensures WaitersHoldNothing(Next(rs, e))
  {
    forall r | r in Next(rs, e) && r.Waits() ensures r.megabytes == 0.0 {
      match e.action
      case Try(q) => EntryAfterTry(rs, e.machine, q, r);
      case Move(key, pid) =>
        var living := LivingOf(rs, e);
        var mine := IndexOfKey(living, key);
        if mine.Some? {
          assert living[mine.value] in living;
        }
      case _ =>
    }
  }

  /** The waiter's room with the short reservations counted as gone covers what it wants: in the capacity,
      and in `level`, the memory available less the growth still expected. */
  ghost predicate RoomCovers(rs: seq<Reservation>, level: Option<real>, w: Starved, capacityMb: real) {
    && capacityMb - Held(rs, Lasting) >= w.wants
    && (level.Some? ==> level.value + Held(rs, Short) - w.floorMb >= w.wants)
  }

  // --- The memory a request sees -------------------------------------------------------

  function Min(a: Mb, b: Mb): Mb { if a <= b then a else b }

  /** What the reservations still grow by, to a process that has none of them. */
  function Outside(rs: seq<Reservation>, processes: Processes): Mb {
    if rs == [] then 0.0
    else
      (if rs[0].megabytes > 0.0 then Max(0.0, rs[0].megabytes - ResidentMb(rs[0].pid, processes)) else 0.0)
      + Outside(rs[1..], processes)
  }

  /** What a process's own reservations use already, which it sees as still to grow. */
  function OwnUsed(rs: seq<Reservation>, processes: Processes, pid: int): Mb {
    if rs == [] then 0.0
    else
      (if rs[0].pid == pid then Min(rs[0].megabytes, ResidentMb(pid, processes)) else 0.0)
      + OwnUsed(rs[1..], processes, pid)
  }

  lemma {:induction false} GrowthSeen(rs: seq<Reservation>, processes: Processes, pid: int)
    ensures Growth(rs, processes, pid) == Outside(rs, processes) + OwnUsed(rs, processes, pid)
  {
    if rs != [] {
      GrowthSeen(rs[1..], processes, pid);
    }
  }

  predicate HoldsNothing(rs: seq<Reservation>, pid: int) {
    forall i :: 0 <= i < |rs| && rs[i].pid == pid ==> rs[i].megabytes == 0.0
  }

  lemma {:induction false} NothingUsed(rs: seq<Reservation>, processes: Processes, pid: int)
    requires HoldsNothing(rs, pid)
    ensures OwnUsed(rs, processes, pid) == 0.0
  {
    if rs != [] {
      assert forall i :: 0 <= i < |rs[1..]| ==> rs[1..][i] == rs[i + 1];
      NothingUsed(rs[1..], processes, pid);
    }
  }

  /** The memory available less what the reservations still grow by. */
  function LevelAt(rs: seq<Reservation>, machine: Machine): Option<real> {
    if machine.availableMb.None? then None else Some(machine.availableMb.value - Outside(rs, machine.processes))
  }

  /** A request sees the level less what its own process's reservations use already: the level itself when the
      process holds nothing. */
  lemma SeenIsLevel(others: seq<Reservation>, machine: Machine, pid: int)
    requires OldestWaiter(others).Some?
    ensures var seen, level := SeenMb(others, machine, pid), LevelAt(others, machine);
            && seen.Some? == level.Some?
            && (seen.Some? ==> seen.value == level.value - OwnUsed(others, machine.processes, pid))
            && (HoldsNothing(others, pid) ==> seen == level)
  {
    GrowthSeen(others, machine.processes, pid);
    if HoldsNothing(others, pid) {
      NothingUsed(others, machine.processes, pid);
    }
  }

  /** The level moves with the reservations: a step takes at most what it reserves, and what ends gives back
      its megabytes at least. At a try, before its own megabytes, it is what the machine shows. */
  ghost predicate Accounted(rs: seq<Reservation>, level: Option<real>, e: Event, level': Option<real>) {
    && level.Some? == level'.Some?
    && (level.Some? ==> level'.value + Held(Next(rs, e), All) >= level.value + Held(rs, All))
    && (e.action.Try? ==>
          var shown := LevelAt(Others(rs, e.machine, e.action.q), e.machine);
          && shown.Some? == level'.Some?
          && (shown.Some? ==> shown.value == level'.value + (if Admitting(rs, e) then e.action.q.megabytes else 0.0)))
  }

  /** A lasting admission held to a strict drain for `w`. */
  ghost predicate HeldToStrictDrain(rs: seq<Reservation>, e: Event, w: Starved)
    requires e.action.Try?
  {
    var q := e.action.q;
    var others := Others(rs, e.machine, q);
    var drained := DrainedWaiter(others, e.machine, q);
    && drained.Some? && drained.value < |others| && others[drained.value].Waits()
    && IsEntryOf(others[drained.value], w)
    && (others[drained.value].nightly || StrictDrain(drained.value, others, e.machine, q))
  }

  /** Under a strict drain only the waiter's room can let a request go: once the room covers what it wants,
      the small-request exception cannot fire, and no request passes on an earlier end. */
  lemma StrictDrainLeavesRoom(others: seq<Reservation>, w: nat, megabytes: Mb, capacityMb: real, seen: Option<real>,
                              expectedEnd: Option<real>)
    requires w < |others| && others[w].Waits() && others[w].megabytes == 0.0
    requires capacityMb - Held(others, Lasting) >= others[w].waitingMb.value
    requires seen.Some? ==> seen.value + Held(others, Short) - EntryFloorMb(others[w]) >= others[w].waitingMb.value
    requires DrainAllows(w, others, megabytes, Some(capacityMb), seen, expectedEnd)
    requires others[w].nightly || expectedEnd.None?
    ensures capacityMb - Held(others, Lasting) - megabytes >= others[w].waitingMb.value
    ensures seen.Some? ==>
              seen.value - megabytes + Held(others, Short) - EntryFloorMb(others[w]) >= others[w].waitingMb.value
    ensures !BlockedByLarge(w, others, Some(capacityMb), seen, SMALL_REQUEST_MB)
  {
    var rest := Without(others, w);
    HeldWithout(others, w, All);
    HeldWithout(others, w, Lasting);
    HeldWithout(others, w, Short);
    LastingAndShort(rest);
  }

  /** Without the exception for small requests a strict drain lets a request go by the waiter's room alone. */
  lemma StrictDrainGoesByRoom(others: seq<Reservation>, w: nat, megabytes: Mb, capacityMb: real, seen: Option<real>,
                              expectedEnd: Option<real>)
    requires w < |others| && others[w].Waits() && others[w].megabytes == 0.0
    requires DrainAllows(w, others, megabytes, Some(capacityMb), seen, expectedEnd)
    requires others[w].nightly || expectedEnd.None?
    requires megabytes > SMALL_REQUEST_MB || !BlockedByLarge(w, others, Some(capacityMb), seen, SMALL_REQUEST_MB)
    ensures capacityMb - Held(others, Lasting) - megabytes >= others[w].waitingMb.value
    ensures seen.Some? ==>
              seen.value - megabytes + Held(others, Short) - EntryFloorMb(others[w]) >= others[w].waitingMb.value
  {
    var rest := Without(others, w);
    HeldWithout(others, w, Lasting);
    HeldWithout(others, w, Short);
    LastingAndShort(rest);
  }

  /** Where the capacity covers what the waiter wants, the exception can fire if and only if a large lasting run holds
      memory and the request's own process uses so much in its reservations that, to it, the level does not cover
      what the waiter wants even with the small runs gone. */
  lemma ExceptionFiresExactly(others: seq<Reservation>, w: nat, machine: Machine, pid: int, capacityMb: real)
    requires w < |others| && others[w].Waits() && others[w].megabytes == 0.0 && machine.capacityMb == Some(capacityMb)
    requires capacityMb - Held(others, Lasting) >= others[w].waitingMb.value
    ensures var level := LevelAt(others, machine);
            BlockedByLarge(w, others, machine.capacityMb, SeenMb(others, machine, pid), SMALL_REQUEST_MB) <==>
            && AnyHolder(others, LastingAbove(SMALL_REQUEST_MB)) && level.Some?
            && OwnUsed(others, machine.processes, pid)
               > level.value + Held(others, LastingUpTo(SMALL_REQUEST_MB)) + Held(others, Short)
                 - EntryFloorMb(others[w]) - others[w].waitingMb.value
  {
    var rest := Without(others, w);
    SeenIsLevel(others, machine, pid);
    HeldWithout(others, w, LastingAbove(SMALL_REQUEST_MB));
    HeldWithout(others, w, LastingUpTo(SMALL_REQUEST_MB));
    HeldWithout(others, w, Short);
    HeldWithout(others, w, Lasting);
    LastingAndShort(rest);
    AboveAndUpTo(rest, SMALL_REQUEST_MB);
    HoldersAndHeld(rest, LastingAbove(SMALL_REQUEST_MB));
    HoldersAndHeld(others, LastingAbove(SMALL_REQUEST_MB));
  }

  /** A request held to the strict drain for `w` that the exception for small ones does not let go. */
  ghost predicate GoesByRoom(rs: seq<Reservation>, e: Event, w: Starved)
    requires e.action.Try?
  {
    && HeldToStrictDrain(rs, e, w)
    && var q := e.action.q;
       var others := Others(rs, e.machine, q);
       var drained := DrainedWaiter(others, e.machine, q).value;
       q.megabytes > SMALL_REQUEST_MB
       || !BlockedByLarge(drained, others, e.machine.capacityMb, SeenMb(others, e.machine, q.pid), SMALL_REQUEST_MB)
  }

  /** A lasting admission by room leaves it covered. */
  lemma AdmissionLeavesRoom(rs: seq<Reservation>, level: Option<real>, e: Event, level': Option<real>, w: Starved,
                            capacityMb: real)
    requires AdmitsLasting(rs, e) && GoesByRoom(rs, e, w) && Accounted(rs, level, e, level')
    requires e.machine.capacityMb == Some(capacityMb) && WaitersHoldNothing(rs)
    ensures RoomCovers(Next(rs, e), level', w, capacityMb)
  {
    var q := e.action.q;
    var others := Others(rs, e.machine, q);
    var seen := SeenMb(others, e.machine, q.pid);
    var i := DrainedWaiter(others, e.machine, q).value;
    assert others[i] in others && others[i] in rs;
    SeenIsLevel(others, e.machine, q.pid);
    HeldWithOneMore(others, HoldingEntry(e.machine, q), Lasting);
    HeldWithOneMore(others, HoldingEntry(e.machine, q), Short);
    StrictDrainGoesByRoom(others, i, q.megabytes, capacityMb, seen,
                          if StrictDrain(i, others, e.machine, q) then None else ExpectedEnd(e.machine, q));
  }

  /** One step keeps the room the starved waiter has gained. */
  lemma StepKeepsRoom(rs: seq<Reservation>, level: Option<real>, e: Event, level': Option<real>, w: Starved,
                      capacityMb: real)
    requires RoomCovers(rs, level, w, capacityMb) && Accounted(rs, level, e, level')
    requires e.machine.capacityMb == Some(capacityMb) && WaitersHoldNothing(rs) && !Merging(rs, e)
    requires AdmitsLasting(rs, e) ==> GoesByRoom(rs, e, w)
    ensures RoomCovers(Next(rs, e), level', w, capacityMb)
  {
    if AdmitsLasting(rs, e) {
      AdmissionLeavesRoom(rs, level, e, level', w, capacityMb);
    } else {
      LastingAndShort(rs);
      LastingAndShort(Next(rs, e));
      NextAddsNothing(rs, e, Lasting);
    }
  }

  /** Every step of the run is accounted for, none merges, and every lasting admission is held to a strict
      drain for `w` and goes by its room. */
  ghost predicate StrictRun(rs: seq<Reservation>, levels: seq<Option<real>>, events: seq<Event>, w: Starved)
    requires |levels| == |events| + 1
    decreases |events|
  {
    events != [] ==>
      && Accounted(rs, levels[0], events[0], levels[1])
      && !Merging(rs, events[0])
      && (AdmitsLasting(rs, events[0]) ==> GoesByRoom(rs, events[0], w))
      && StrictRun(Next(rs, events[0]), levels[1..], events[1..], w)
  }

  /** A strict drain never loses gained room: over every such run, once the room covers what the starved
      waiter wants, it goes on covering it. */
  lemma {:induction false} StrictDrainKeepsRoom(rs: seq<Reservation>, levels: seq<Option<real>>, events: seq<Event>,
                                                w: Starved, capacityMb: real)
    requires |levels| == |events| + 1 && FixedCapacity(events, capacityMb) && StrictRun(rs, levels, events, w)
    requires WaitersHoldNothing(rs) && RoomCovers(rs, levels[0], w, capacityMb)
    ensures RoomCovers(After(rs, events), levels[|events|], w, capacityMb)
    decreases |events|
  {
    if events != [] {
      StepKeepsRoom(rs, levels[0], events[0], levels[1], w, capacityMb);
      NextWaitersHoldNothing(rs, events[0]);
      StrictDrainKeepsRoom(Next(rs, events[0]), levels[1..], events[1..], w, capacityMb);
    }
  }

  // --- The feasibility cap -------------------------------------------------------------

  /** The megabytes of the large lasting reservations, in the ledger's order. */
  function LargeRuns(rs: seq<Reservation>, bound: Mb): seq<Mb> {
    if rs == [] then []
    else if In(rs[0], LastingAbove(bound)) then [rs[0].megabytes] + LargeRuns(rs[1..], bound)
    else LargeRuns(rs[1..], bound)
  }

  lemma {:induction false} SumIsNotNegative(xs: seq<Mb>)
    ensures Sum(xs) >= 0.0
  {
    if xs != [] {
      SumIsNotNegative(xs[1..]);
    }
  }

  lemma SumAround(xs: seq<real>, k: nat)
    requires k < |xs|
    ensures Sum(xs) == xs[k] + Sum(xs[..k] + xs[k + 1..])
  {
    assert xs == xs[..k] + ([xs[k]] + xs[k + 1..]) && ([xs[k]] + xs[k + 1..])[1..] == xs[k + 1..];
    SumOfConcat(xs[..k], [xs[k]] + xs[k + 1..]);
    SumOfConcat(xs[..k], xs[k + 1..]);
  }

  lemma {:induction false} SumOfContained(a: seq<Mb>, b: seq<Mb>)
    requires multiset(a) <= multiset(b)
    ensures Sum(a) <= Sum(b)
  {
    if a == [] {
      SumIsNotNegative(b);
    } else {
      var k := FirstContained(a, b);
      SumOfContained(a[1..], b[..k] + b[k + 1..]);
      SumAround(b, k);
    }
  }

  lemma {:induction false} LargeRunsHold(rs: seq<Reservation>, bound: Mb)
    ensures Sum(LargeRuns(rs, bound)) == Held(rs, LastingAbove(bound))
  {
    if rs != [] {
      LargeRunsHold(rs[1..], bound);
    }
  }

  /** The feasibility cap is sound: while every large lasting run goes on and the ended small ones give back at
      most their megabytes, a waiter that `BlockedByLarge` holds of has no room, whatever the small requests do. */
  lemma BlockedHasNoRoom(w: nat, others: seq<Reservation>, capacityMb: Option<real>, availableMb: Option<real>,
                         smallMb: Mb, later: seq<Reservation>, minFreeMb: real, availableLater: Option<real>,
                         processes: Processes, ownPid: int)
    requires w < |others| && others[w].Waits() && others[w].megabytes == 0.0
    requires BlockedByLarge(w, others, capacityMb, availableMb, smallMb)
    requires multiset(LargeRuns(others, smallMb)) <= multiset(LargeRuns(later, smallMb))
    requires minFreeMb >= EntryFloorMb(others[w])
    requires availableMb.Some? ==>
               && availableLater.Some?
               && availableLater.value - Growth(later, processes, ownPid)
                  <= availableMb.value + Held(others, LastingUpTo(smallMb)) + Held(others, Short)
    ensures !MemoryRoom(later, others[w].waitingMb.value, minFreeMb, capacityMb, availableLater, processes, ownPid)
  {
    var rest := Without(others, w);
    HeldWithout(others, w, LastingAbove(smallMb));
    HeldWithout(others, w, LastingUpTo(smallMb));
    HeldWithout(others, w, Short);
    LastingAndShort(rest);
    AboveAndUpTo(rest, smallMb);
    LastingAndShort(later);
    AboveAndUpTo(later, smallMb);
    LargeRunsHold(others, smallMb);
    LargeRunsHold(later, smallMb);
    SumOfContained(LargeRuns(others, smallMb), LargeRuns(later, smallMb));
    HoldersAndHeld(rest, LastingAbove(smallMb));
    HoldersAndHeld(later, All);
  }

  /** And it is exact: with the large runs alone left, and the small ones' megabytes given back in full, the
      waiter has room if and only if it was not blocked. */
  lemma BlockedExactly(w: nat, others: seq<Reservation>, capacityMb: Option<real>, availableMb: Option<real>,
                       smallMb: Mb, later: seq<Reservation>, availableLater: Option<real>, processes: Processes,
                       ownPid: int)
    requires w < |others| && others[w].Waits() && others[w].megabytes == 0.0
    requires AnyHolder(Without(others, w), LastingAbove(smallMb))
    requires Held(later, All) == Held(others, LastingAbove(smallMb))
    requires availableMb.Some? == availableLater.Some?
    requires availableMb.Some? ==>
               availableLater.value - Growth(later, processes, ownPid)
               == availableMb.value + Held(others, LastingUpTo(smallMb)) + Held(others, Short)
    ensures MemoryRoom(later, others[w].waitingMb.value, EntryFloorMb(others[w]), capacityMb, availableLater, processes,
                       ownPid)
            <==> !BlockedByLarge(w, others, capacityMb, availableMb, smallMb)
  {
    var rest := Without(others, w);
    HeldWithout(others, w, LastingAbove(smallMb));
    HeldWithout(others, w, LastingUpTo(smallMb));
    HeldWithout(others, w, Short);
    LastingAndShort(rest);
    AboveAndUpTo(rest, smallMb);
    HoldersAndHeld(rest, LastingAbove(smallMb));
    HoldersAndHeld(later, All);
  }

  /** An entry rewritten lately, or never. */
  predicate IsLive(waiter: Reservation, now: real) {
    waiter.refreshed.None? || now - waiter.refreshed.value <= STALE_AFTER_SECONDS
  }

  /** The floor that an entry's waiter is taken to need: its entry's, else the old harness's where the entry does not
      even say when it was rewritten. */
  function FloorTaken(waiter: Reservation): real {
    match (waiter.floorMb, waiter.refreshed)
    case (Some(floor), _) => if floor < 0.0 then 0.0 else floor
    case (None, None) => 10240.0
    case (None, Some(_)) => 0.0
  }

  predicate EndsBefore(r: Reservation, waiter: Reservation) { r.isShort || BegunSince(r, waiter) }

  /** The others' reservations that the drain counts as gone: the short ones and those begun since the wait. */
  function Ending(others: seq<Reservation>, w: nat): seq<Reservation>
    requires w < |others|
  {
    Picked(Without(others, w), (r: Reservation) => EndsBefore(r, others[w]))
  }

  /** Those it waits on. */
  function Staying(others: seq<Reservation>, w: nat): seq<Reservation>
    requires w < |others|
  {
    Picked(Without(others, w), (r: Reservation) => !EndsBefore(r, others[w]))
  }

  lemma {:induction false} EndingAndStaying(rs: seq<Reservation>, waiter: Reservation)
    ensures var share := ShortOrSince(waiter.WaitingSince());
            && Held(Picked(rs, (r: Reservation) => EndsBefore(r, waiter)), All) == Held(rs, share)
            && Held(Picked(rs, (r: Reservation) => !EndsBefore(r, waiter)), All) == Held(rs, All) - Held(rs, share)
  {
    HeldByPicked(rs, ShortOrSince(waiter.WaitingSince()), (r: Reservation) => EndsBefore(r, waiter));
    if rs != [] {
      EndingAndStaying(rs[1..], waiter);
      var rest := Picked(rs[1..], (r: Reservation) => !EndsBefore(r, waiter));
      assert ([rs[0]] + rest)[1..] == rest && [] + rest == rest;
    }
  }

  /** The ledger drains for a live waiter that has waited long enough if and only if its megabytes would fit the
      ledger and its floor once every short reservation and every one begun since its wait began has ended, and these
      and the waiter have given their megabytes back. By the rule of admission that is: if it would be admitted then,
      but not for being alone only. It drains strictly exactly past the waiter's bound. */
  lemma DrainsWhileItCouldStart(w: nat, others: seq<Reservation>, now: real, capacityMb: Option<real>,
                                seenMb: Option<real>, later: seq<Reservation>, availableLater: Option<real>,
                                processes: Processes, ownPid: int)
    requires w < |others| && others[w].Waits() && seenMb.Some? == availableLater.Some?
    requires Held(later, All) == Held(Staying(others, w), All)
    requires seenMb.Some? ==>
               availableLater.value - Growth(later, processes, ownPid)
               == seenMb.value + Held(Ending(others, w), All) + others[w].megabytes
    ensures var wants, floor := others[w].waitingMb.value, FloorTaken(others[w]);
            var clauses := LedgerClause(later, wants, capacityMb)
                           && FloorClause(later, wants, floor, availableLater, processes, ownPid);
            var state := DrainState(w, others, now, capacityMb, seenMb);
            var waited := now - others[w].WaitingSince();
            var due := waited >= DrainAfter(others[w]) && IsLive(others[w], now);
            && (state.IsDrain() <==> due && clauses)
            && (state.IsDrain() <==>
                  && due && MemoryRoom(later, wants, floor, capacityMb, availableLater, processes, ownPid)
                  && (AnyHolder(later, All) || clauses))
            && (state.PastBound? <==> state.IsDrain() && waited > DrainMax(others[w]))
  {
    EndingAndStaying(Without(others, w), others[w]);
  }

  /** What the state names: the age of an entry that is not live, the bound that is passed, and the room of a waiter
      that cannot start, which is the lesser of its two and short of what it wants. */
  lemma DrainStateNames(w: nat, others: seq<Reservation>, now: real, capacityMb: Option<real>, seenMb: Option<real>)
    requires w < |others| && others[w].Waits()
    ensures var waiter, state := others[w], DrainState(w, others, now, capacityMb, seenMb);
            var rest := Without(others, w);
            var freed := Held(rest, ShortOrSince(waiter.WaitingSince()));
            && (state.NotYet? <==> now - waiter.WaitingSince() < DrainAfter(waiter))
            && (state.Stale? <==> !state.NotYet? && !IsLive(waiter, now))
            && (state.Stale? ==> waiter.refreshed == Some(now - state.seconds))
            && (state.PastBound? ==> state.bound == DrainMax(waiter))
            && (state.CannotStart? ==>
                  var ledger := if capacityMb.None? then None else Some(capacityMb.value - Held(rest, All) + freed);
                  var floor := if seenMb.None? then None
                    else Some(seenMb.value + freed - FloorTaken(waiter) + waiter.megabytes);
                  && state.roomMb < waiter.waitingMb.value
                  && (ledger == Some(state.roomMb) || floor == Some(state.roomMb))
                  && (ledger.Some? ==> state.roomMb <= ledger.value) && (floor.Some? ==> state.roomMb <= floor.value))
  {
  }

  /** So a waiter larger than the capacity is never drained for, though with every holder gone it would start. */
  lemma TooLargeIsNotDrained(w: nat, others: seq<Reservation>, now: real, capacityMb: real, seenMb: Option<real>)
    requires w < |others| && others[w].Waits() && others[w].waitingMb.value > capacityMb
    ensures !DrainState(w, others, now, Some(capacityMb), seenMb).IsDrain()
    ensures forall minFreeMb: real, availableMb, processes: Processes, ownPid: int ::
              MemoryRoom([], others[w].waitingMb.value, minFreeMb, Some(capacityMb), availableMb, processes, ownPid)
  {
    var rest := Without(others, w);
    HeldAtMost(rest, ShortOrSince(others[w].WaitingSince()), All);
  }

  // --- Passing on an earlier end -------------------------------------------------------

  predicate IsLastingHolder(r: Reservation) { !r.isShort && r.megabytes > 0.0 }

  /** A lasting run holds memory, and `end` is no later than the end that each declares. */
  predicate EndsNoLater(others: seq<Reservation>, end: Option<real>) {
    && end.Some?
    && (exists r :: r in others && IsLastingHolder(r))
    && forall r :: r in others && IsLastingHolder(r) ==> r.expectedEnd.Some? && end.value <= r.expectedEnd.value
  }

  /** With `megabytes` more the capacity and the memory seen, short reservations counted as gone, still cover what the
      waiter wants. */
  predicate LeavesItRoom(others: seq<Reservation>, w: nat, megabytes: Mb, capacityMb: Option<real>, seen: Option<real>)
    requires w < |others| && others[w].Waits()
  {
    && (capacityMb.Some? ==> capacityMb.value - Held(others, Lasting) - megabytes >= others[w].waitingMb.value)
    && (seen.Some? ==>
          seen.value + Held(others, Short) - megabytes - EntryFloorMb(others[w]) >= others[w].waitingMb.value)
  }

  lemma EndsFirstBesideWaiter(others: seq<Reservation>, w: nat, end: Option<real>)
    requires w < |others| && others[w].megabytes == 0.0
    ensures EndsFirst(Without(others, w), end) <==> EndsNoLater(others, end)
  {
    var rest := Without(others, w);
    forall r: Reservation ensures r in rest && IsLastingHolder(r) <==> r in others && IsLastingHolder(r) {
      if r in others && IsLastingHolder(r) {
        var i :| 0 <= i < |others| && others[i] == r;
        assert rest[if i < w then i else i - 1] == r;
      }
    }
    assert forall i :: 0 <= i < |rest| ==> rest[i] in rest;
    if EndsNoLater(others, end) {
      var r :| r in others && IsLastingHolder(r);
      assert r in rest;
      var i :| 0 <= i < |rest| && rest[i] == r;
      assert In(rest[i], Lasting);
    }
    if AnyHolder(rest, Lasting) {
      var i :| 0 <= i < |rest| && In(rest[i], Lasting) && rest[i].megabytes > 0.0;
      assert rest[i] in others;
    }
    if EndsFirst(rest, end) {
      forall r | r in others && IsLastingHolder(r)
        ensures r.expectedEnd.Some? && end.value <= r.expectedEnd.value {
        assert r in rest;
        var i :| 0 <= i < |rest| && rest[i] == r;
        assert In(rest[i], Lasting);
      }
    }
  }

  /** When a drain lets a request go: where room is left for the waiter, where it is small and a large run holds the
      waiter back, or, beside a waiter that is not the nightly's, where no lasting run is declared to end earlier. */
  lemma DrainAllowsExactly(others: seq<Reservation>, w: nat, megabytes: Mb, capacityMb: Option<real>,
                           seen: Option<real>, expectedEnd: Option<real>, smallMb: Mb)
    requires w < |others| && others[w].Waits() && others[w].megabytes == 0.0
    ensures DrainAllows(w, others, megabytes, capacityMb, seen, expectedEnd, smallMb) <==>
            || LeavesItRoom(others, w, megabytes, capacityMb, seen)
            || (megabytes <= smallMb && BlockedByLarge(w, others, capacityMb, seen, smallMb))
            || (!others[w].nightly && EndsNoLater(others, expectedEnd))
  {
    HeldWithout(others, w, Lasting);
    HeldWithout(others, w, Short);
    LastingAndShort(Without(others, w));
    EndsFirstBesideWaiter(others, w, expectedEnd);
  }

  /** The request ends no later than every lasting run that holds memory beside it, and some does. */
  predicate PassesOnEnd(rs: seq<Reservation>, e: Event)
    requires e.action.Try?
  {
    EndsNoLater(Others(rs, e.machine, e.action.q), ExpectedEnd(e.machine, e.action.q))
  }

  /** The request is held to a drain, leaves the waiter no room, and does not go as a small one. */
  predicate HeldWithoutRoom(rs: seq<Reservation>, e: Event)
    requires e.action.Try?
  {
    var q := e.action.q;
    var others := Others(rs, e.machine, q);
    var drained, seen := DrainedWaiter(others, e.machine, q), SeenMb(others, e.machine, q.pid);
    && drained.Some? && drained.value < |others| && others[drained.value].Waits()
    && !LeavesItRoom(others, drained.value, q.megabytes, e.machine.capacityMb, seen)
    && (q.megabytes > SMALL_REQUEST_MB
        || !BlockedByLarge(drained.value, others, e.machine.capacityMb, seen, SMALL_REQUEST_MB))
  }

  /** Such a request, where it fits and passes the order, is admitted if and only if it is short, or the drain is
      neither strict nor the nightly's and it ends no later than the lasting runs. */
  lemma PassesOnEndOnly(rs: seq<Reservation>, e: Event)
    requires WaitersHoldNothing(rs) && e.action.Try? && HeldWithoutRoom(rs, e)
    ensures var q := e.action.q;
            var others := Others(rs, e.machine, q);
            var w := DrainedWaiter(others, e.machine, q).value;
            Admits(others, e.machine, q) <==>
            && Fits(others, e.machine, q)
            && (|| q.IsShort()
                || (&& OrderAllows(others, q.megabytes, q.PlaceAt(e.machine.now), e.machine.capacityMb)
                    && !others[w].nightly && !StrictDrain(w, others, e.machine, q) && PassesOnEnd(rs, e)))
  {
    var q := e.action.q;
    var others := Others(rs, e.machine, q);
    var w := DrainedWaiter(others, e.machine, q).value;
    assert others[w] in others && others[w] in rs;
    DrainAllowsExactly(others, w, q.megabytes, e.machine.capacityMb, SeenMb(others, e.machine, q.pid),
                       if StrictDrain(w, others, e.machine, q) then None else ExpectedEnd(e.machine, q),
                       SMALL_REQUEST_MB);
  }

  /** No step merges, and every lasting admission is held to a drain without room left or going as a small one. */
  predicate PassingRun(rs: seq<Reservation>, events: seq<Event>)
    decreases |events|
  {
    events != [] ==>
      && !Merging(rs, events[0])
      && (AdmitsLasting(rs, events[0]) ==> HeldWithoutRoom(rs, events[0]))
      && PassingRun(Next(rs, events[0]), events[1..])
  }

  /** A lasting run begun after `start` declares an end, no later than any older one still holding. */
  ghost predicate PassersEndFirst(rs: seq<Reservation>, start: real) {
    forall passer, older ::
      && passer in rs && IsLastingHolder(passer) && passer.HeldSince() > start
      && older in rs && IsLastingHolder(older) && older.HeldSince() <= start ==>
        passer.expectedEnd.Some? && older.expectedEnd.Some? && passer.expectedEnd.value <= older.expectedEnd.value
  }

  /** The entry before a step that an entry after it without an admission comes from. */
  lemma HolderCameFrom(rs: seq<Reservation>, e: Event, r: Reservation) returns (o: Reservation)
    requires r in Next(rs, e) && IsLastingHolder(r) && !Merging(rs, e)
    requires AdmitsLasting(rs, e) ==> r != HoldingEntry(e.machine, e.action.q)
    ensures o in rs && IsLastingHolder(o)
    ensures o.HeldSince() == r.HeldSince() && o.expectedEnd == r.expectedEnd
  {
    o := r;
    match e.action
    case Try(q) => EntryAfterTry(rs, e.machine, q, r);
    case Move(key, pid) =>
      var living := LivingOf(rs, e);
      var mine := IndexOfKey(living, key);
      if mine.Some? && r !in living {
        o := living[mine.value];
        assert o in living;
      }
    case _ =>
  }

  lemma StepPassersEndFirst(rs: seq<Reservation>, e: Event, start: real)
    requires PassersEndFirst(rs, start) && WaitersHoldNothing(rs) && !Merging(rs, e)
    requires e.machine.now > start && (AdmitsLasting(rs, e) ==> HeldWithoutRoom(rs, e))
    ensures PassersEndFirst(Next(rs, e), start)
  {
    var next := Next(rs, e);
    if AdmitsLasting(rs, e) {
      PassesOnEndOnly(rs, e);
    }
    forall passer, older |
      && passer in next && IsLastingHolder(passer) && passer.HeldSince() > start
      && older in next && IsLastingHolder(older) && older.HeldSince() <= start
      ensures passer.expectedEnd.Some? && older.expectedEnd.Some? && passer.expectedEnd.value <= older.expectedEnd.value
    {
      var o := HolderCameFrom(rs, e, older);
      if AdmitsLasting(rs, e) && passer == HoldingEntry(e.machine, e.action.q) {
        EntryAfterTry(rs, e.machine, e.action.q, older);
      } else {
        var p := HolderCameFrom(rs, e, passer);
      }
    }
  }

  /** Over any number of admissions through that exception, every lasting run begun since the start ends no
      later than every older one still holding. */
  lemma {:induction false} PassersNeverOutlast(rs: seq<Reservation>, events: seq<Event>, start: real, time: real)
    requires Timed(rs, time) && TimedRun(events, time) && start <= time && (time == start || PassersEndFirst(rs, start))
    requires WaitersHoldNothing(rs) && PassingRun(rs, events)
    ensures PassersEndFirst(After(rs, events), start)
    decreases |events|
  {
    if events != [] {
      var e := events[0];
      var now := e.machine.now;
      NextTimed(rs, e, time);
      NextWaitersHoldNothing(rs, e);
      if now > start {
        StepPassersEndFirst(rs, e, start);
      }
      PassersNeverOutlast(Next(rs, e), events[1..], start, now);
    }
  }

  /** When the first older run ends as it declared, and so does every run that declared to end by then, the
      passers hold nothing: the starved waiter's room is what it would be without them. */
  lemma PassersAreGone(rs: seq<Reservation>, events: seq<Event>, start: real, older: Reservation,
                       later: seq<Reservation>, time: real)
    requires Timed(rs, start) && TimedRun(events, start) && WaitersHoldNothing(rs) && PassingRun(rs, events)
    requires older in After(rs, events) && IsLastingHolder(older) && older.HeldSince() <= start
    requires older.expectedEnd.Some? && older.expectedEnd.value <= time
    requires forall r :: r in later ==>
               r in After(rs, events) && (IsLastingHolder(r) && r.expectedEnd.Some? ==> r.expectedEnd.value > time)
    ensures Held(later, LastingAfter(start)) == 0.0
  {
    PassersNeverOutlast(rs, events, start, start);
    HoldersAndHeld(later, LastingAfter(start));
    forall i | 0 <= i < |later| ensures !(In(later[i], LastingAfter(start)) && later[i].megabytes > 0.0) {
      assert later[i] in later;
    }
  }
}
