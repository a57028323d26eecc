/** What ordered admission and the choice of the drained waiter guarantee for one request. */
module Order {
  import opened Options
  import opened Reservations
  import opened Admission

  // --- The waiter a request is held to a drain for ---------------------------------

  /** Waiter `i` comes first: an earlier place, or the same place and an earlier entry. */
  ghost predicate Earlier(others: seq<Reservation>, i: nat, j: nat)
    requires i < |others| && j < |others|
  {
    Before(others[i].PlaceOf(), others[j].PlaceOf()) || (others[i].PlaceOf() == others[j].PlaceOf() && i < j)
  }

  ghost predicate EarlierThanAll(others: seq<Reservation>, i: nat, order: seq<nat>)
    requires i < |others|
  {
    forall k :: 0 <= k < |order| ==> order[k] < |others| && Earlier(others, i, order[k])
  }

  ghost predicate InOrder(others: seq<Reservation>, order: seq<nat>) {
    order != [] ==> order[0] < |others| && EarlierThanAll(others, order[0], order[1..]) && InOrder(others, order[1..])
  }

  lemma {:induction false} InOrderAt(others: seq<Reservation>, order: seq<nat>, a: nat, b: nat)
    requires InOrder(others, order) && a < b < |order|
    ensures order[a] < |others| && order[b] < |others| && Earlier(others, order[a], order[b])
  {
    if a == 0 {
      assert order[1..][b - 1] == order[b];
    } else {
      InOrderAt(others, order[1..], a - 1, b - 1);
    }
  }

  lemma {:induction false} InsertedInOrder(others: seq<Reservation>, order: seq<nat>, i: nat)
    requires i < |others| && InOrder(others, order) && forall k :: 0 <= k < |order| ==> order[k] < i
    ensures InOrder(others, Inserted(others, order, i))
  {
    if order == [] {
    } else if Before(others[i].PlaceOf(), others[order[0]].PlaceOf()) {
      assert forall k :: 0 < k < |order| ==> order[k] == order[1..][k - 1];
      assert EarlierThanAll(others, i, order);
    } else {
      assert forall k :: 0 <= k < |order[1..]| ==> order[1..][k] == order[k + 1];
      InsertedInOrder(others, order[1..], i);
      assert EarlierThanAll(others, order[0], Inserted(others, order[1..], i));
    }
  }

  lemma {:induction false} SortedAheadInOrder(others: seq<Reservation>, n: nat, place: Place)
    requires n <= |others|
    ensures InOrder(others, SortedAhead(others, n, place))
  {
    if n > 0 {
      SortedAheadInOrder(others, n - 1, place);
      if IsAhead(others[n - 1], place) {
        InsertedInOrder(others, SortedAhead(others, n - 1, place), n - 1);
      }
    }
  }

  lemma {:induction false} InsertedHas(others: seq<Reservation>, order: seq<nat>, i: nat, j: nat)
    requires i < |others| && forall k :: 0 <= k < |order| ==> order[k] < |others|
    requires j == i || j in order
    ensures j in Inserted(others, order, i)
  {
    if order != [] {
      assert order == [order[0]] + order[1..];
      if j == i || j in order[1..] {
        InsertedHas(others, order[1..], i, j);
      }
    }
  }

  lemma {:induction false} SortedAheadHas(others: seq<Reservation>, n: nat, place: Place, j: nat)
    requires j < n <= |others| && IsAhead(others[j], place)
    ensures j in SortedAhead(others, n, place)
  {
    var earlier := SortedAhead(others, n - 1, place);
    if j < n - 1 {
      SortedAheadHas(others, n - 1, place, j);
    }
    if IsAhead(others[n - 1], place) {
      InsertedHas(others, earlier, n - 1, j);
    }
  }

  lemma {:induction false} FirstDrainedIsFirst(others: seq<Reservation>, order: seq<nat>, now: real,
                                               capacityMb: Option<real>, availableMb: Option<real>)
    returns (k: nat)
    requires forall k :: 0 <= k < |order| ==> order[k] < |others| && others[order[k]].Waits()
    ensures k <= |order|
    ensures forall a :: 0 <= a < k ==> !DrainState(order[a], others, now, capacityMb, availableMb).IsDrain()
    ensures FirstDrained(others, order, now, capacityMb, availableMb) == if k < |order| then Some(order[k]) else None
    ensures k < |order| ==> DrainState(order[k], others, now, capacityMb, availableMb).IsDrain()
  {
    if order == [] {
      k := 0;
    } else if DrainState(order[0], others, now, capacityMb, availableMb).IsDrain() {
      k := 0;
    } else {
      var rest := FirstDrainedIsFirst(others, order[1..], now, capacityMb, availableMb);
      k := rest + 1;
      forall a | 0 <= a < k ensures !DrainState(order[a], others, now, capacityMb, availableMb).IsDrain() {
        if a > 0 {
          assert order[a] == order[1..][a - 1];
        }
      }
    }
  }

  /** Whether the ledger drains for the waiter at `w`, which comes before `place`. */
  ghost predicate DrainsAhead(others: seq<Reservation>, w: nat, place: Place, now: real, capacityMb: Option<real>,
                              availableMb: Option<real>)
  {
    w < |others| && IsAhead(others[w], place) && DrainState(w, others, now, capacityMb, availableMb).IsDrain()
  }

  lemma DrainedForComesFirst(others: seq<Reservation>, place: Place, now: real, capacityMb: Option<real>,
                             availableMb: Option<real>, j: nat)
    requires DrainsAhead(others, j, place, now, capacityMb, availableMb)
    ensures var drained := DrainedFor(others, place, now, capacityMb, availableMb);
            && drained.Some? && drained.value < |others|
            && (drained.value == j || Earlier(others, drained.value, j))
  {
    var order := SortedAhead(others, |others|, place);
    SortedAheadInOrder(others, |others|, place);
    var k := FirstDrainedIsFirst(others, order, now, capacityMb, availableMb);
    SortedAheadHas(others, |others|, place, j);
    var b :| 0 <= b < |order| && order[b] == j;
    if k < b {
      InOrderAt(others, order, k, b);
    }
  }

  lemma DrainedForDrainsAhead(others: seq<Reservation>, place: Place, now: real, capacityMb: Option<real>,
                              availableMb: Option<real>)
    ensures var drained := DrainedFor(others, place, now, capacityMb, availableMb);
            drained.Some? ==> DrainsAhead(others, drained.value, place, now, capacityMb, availableMb)
  {
    var order := SortedAhead(others, |others|, place);
    var k := FirstDrainedIsFirst(others, order, now, capacityMb, availableMb);
  }

  /** Sorting the waiters ahead and taking the first drained one finds exactly the earliest of those
      the ledger drains for. */
  lemma DrainedForIsEarliest(others: seq<Reservation>, place: Place, now: real, capacityMb: Option<real>,
                             availableMb: Option<real>, w: nat)
    ensures DrainedFor(others, place, now, capacityMb, availableMb) == Some(w) <==>
            && DrainsAhead(others, w, place, now, capacityMb, availableMb)
            && forall j: nat :: j != w && DrainsAhead(others, j, place, now, capacityMb, availableMb) ==>
                 Earlier(others, w, j)
    ensures DrainedFor(others, place, now, capacityMb, availableMb).None? <==>
            forall j: nat :: !DrainsAhead(others, j, place, now, capacityMb, availableMb)
  {
    DrainedForDrainsAhead(others, place, now, capacityMb, availableMb);
    forall j: nat | DrainsAhead(others, j, place, now, capacityMb, availableMb)
      ensures var drained := DrainedFor(others, place, now, capacityMb, availableMb);
              drained.Some? && drained.value < |others| && (drained.value == j || Earlier(others, drained.value, j))
    {
      DrainedForComesFirst(others, place, now, capacityMb, availableMb, j);
    }
  }

  /** A request that no waiter comes before is held to no drain. */
  lemma NobodyAheadNoDrain(others: seq<Reservation>, place: Place, now: real, capacityMb: Option<real>,
                           availableMb: Option<real>)
    requires forall i :: 0 <= i < |others| && others[i].Waits() ==> !Before(others[i].PlaceOf(), place)
    ensures DrainedFor(others, place, now, capacityMb, availableMb).None?
    ensures forall megabytes: Mb :: OrderAllows(others, megabytes, place, capacityMb)
  {
    DrainedForIsEarliest(others, place, now, capacityMb, availableMb, 0);
    forall j: nat ensures !DrainsAhead(others, j, place, now, capacityMb, availableMb) {
    }
  }

  // --- What a request sees ------------------------------------------------------------

  /** A request sees every living entry but the one it left: among the waiting entries, which were put in the list when
      their waits began, exactly the one with its key. One that left none sees all. */
  lemma SeesAllButItsOwn(rs: seq<Reservation>, machine: Machine, q: Request, r: Reservation)
    requires r in rs && Alive(r, machine.processes)
    ensures !r.Waits() || q.since.None? ==> r in Others(rs, machine, q)
    ensures r.Waits() && r.WaitingSince() == r.started && q.since.Some? ==>
              (r in Others(rs, machine, q) <==> r.KeyOf() != Key(q.pid, q.since.value, q.name))
  {
    assert r in Kept(rs, Living(machine.processes));
  }

  // --- One ordered admission --------------------------------------------------------

  /** In either branch, an ordered admission behind the first waiter leaves the capacity room for that
      waiter beside the new request and every lasting reservation begun since the wait began. */
  lemma OrderKeepsRoom(others: seq<Reservation>, first: nat, megabytes: Mb, place: Place, capacityMb: real)
    requires OldestWaiter(others) == Some(first) && Before(others[first].PlaceOf(), place)
    requires OrderAllows(others, megabytes, place, Some(capacityMb))
    ensures Held(Without(others, first), LastingSince(others[first].WaitingSince())) + megabytes
            + others[first].waitingMb.value
            <= capacityMb
  {
    HeldAtMost(Without(others, first), LastingSince(others[first].WaitingSince()), Lasting);
  }

  /** Whether an entry has been held, since its own start where it does not say, from the begin of the wait or later. */
  predicate BegunSince(r: Reservation, waiter: Reservation) {
    match r.heldSince
    case Some(held) => held >= waiter.WaitingSince()
    case None => r.started >= waiter.WaitingSince()
  }

  /** When a request behind the first waiter passes the order. While the waiter would be admitted beside the lasting
      reservations, and its floor does not keep it waiting, the request passes exactly when both fit beside these;
      else exactly when both fit beside those begun since the wait, so that the waiter fits once the runs it waits on
      have ended. */
  lemma OrderExactly(others: seq<Reservation>, first: nat, megabytes: Mb, place: Place, capacityMb: real)
    requires OldestWaiter(others) == Some(first) && Before(others[first].PlaceOf(), place)
    ensures var waiter := others[first];
            var wants := waiter.waitingMb.value;
            var lasting := Picked(Without(others, first), (r: Reservation) => !r.isShort);
            var newer := Picked(Without(others, first), (r: Reservation) => !r.isShort && BegunSince(r, waiter));
            var fits := MemoryRoom(lasting, wants, 0.0, Some(capacityMb), None, map[], 0);
            && (fits && !waiter.waitsOnFloor ==>
                  (OrderAllows(others, megabytes, place, Some(capacityMb))
                   <==> LedgerClause(lasting, wants + megabytes, Some(capacityMb))))
            && (!fits || waiter.waitsOnFloor ==>
                  (OrderAllows(others, megabytes, place, Some(capacityMb))
                   <==> LedgerClause(newer, wants + megabytes, Some(capacityMb))))
  {
    var waiter, rest := others[first], Without(others, first);
    HeldByPicked(rest, Lasting, (r: Reservation) => !r.isShort);
    HeldByPicked(rest, LastingSince(waiter.WaitingSince()), (r: Reservation) => !r.isShort && BegunSince(r, waiter));
    HoldersAndHeld(Picked(rest, (r: Reservation) => !r.isShort), All);
    HoldersAndHeld(rest, Lasting);
  }

  /** No lasting request goes behind a first waiter larger than the capacity. */
  lemma TooLargeHoldsAllBack(others: seq<Reservation>, first: nat, megabytes: Mb, place: Place, capacityMb: real)
    requires OldestWaiter(others) == Some(first) && Before(others[first].PlaceOf(), place)
    requires others[first].waitingMb.value > capacityMb
    ensures !OrderAllows(others, megabytes, place, Some(capacityMb))
  {
  }

  /** A request that the order or a drain holds back goes for being short if and only if it says so and wants no more
      than what a check and its own process take. */
  lemma ShortPassesExactly(others: seq<Reservation>, machine: Machine, q: Request)
    requires Fits(others, machine, q) && !Ordered(others, machine, q)
    ensures Admits(others, machine, q) <==> q.declaredShort && q.megabytes <= 4300.8
    ensures HoldingEntry(machine, q).isShort <==> q.declaredShort && q.megabytes <= 4300.8
  {
  }

  /** Where being alone is not enough, the floor holds for every request that fits, and what holds for it then is the
      floor, and the ledger's clause where anything is held. */
  lemma FloorHoldsAlone(rs: seq<Reservation>, megabytes: Mb, minFreeMb: real, capacityMb: Option<real>,
                        availableMb: Option<real>, processes: Processes, ownPid: int)
    ensures MemoryRoom(rs, megabytes, minFreeMb, capacityMb, availableMb, processes, ownPid, false) <==>
            && FloorClause(rs, megabytes, minFreeMb, availableMb, processes, ownPid)
            && (Held(rs, All) > 0.0 ==> LedgerClause(rs, megabytes, capacityMb))
    ensures MemoryRoom(rs, megabytes, minFreeMb, capacityMb, availableMb, processes, ownPid, true) <==>
            Held(rs, All) > 0.0 ==>
              && FloorClause(rs, megabytes, minFreeMb, availableMb, processes, ownPid)
              && LedgerClause(rs, megabytes, capacityMb)
  {
    HoldersAndHeld(rs, All);
  }

  /** A request that fits and is refused has an older waiter to name: the refusal's text reads the
      first waiter without a check. */
  lemma RefusalHasOlderWaiter(others: seq<Reservation>, machine: Machine, q: Request)
    requires Fits(others, machine, q) && !Admits(others, machine, q)
    ensures OldestWaiter(others).Some?
    ensures Before(others[OldestWaiter(others).value].PlaceOf(), q.PlaceAt(machine.now))
  {
    var place := q.PlaceAt(machine.now);
    if forall i :: 0 <= i < |others| && others[i].Waits() ==> !Before(others[i].PlaceOf(), place) {
      NobodyAheadNoDrain(others, place, machine.now, machine.capacityMb, SeenMb(others, machine, q.pid));
    }
  }
}
