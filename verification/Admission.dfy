/** The admission rules of benchmarks/harness_common.py: room, order, drain, and one try. */
module Admission {
  import opened Options
  import opened Arithmetic
  import opened Reservations

  const DEFAULT_DRAIN_AFTER_SECONDS := 600.0
  const DEFAULT_DRAIN_MAX_SECONDS := 7200.0
  const STALE_AFTER_SECONDS := 120.0
  const DEFAULT_FLOOR_MB := 10240.0
  const SMALL_REQUEST_MB: Mb := 4096.0
  const SHORT_OWN_MB := 2048.0
  const KICAD_CHECK_MB := 2.2 * 1024.0

  /** What one update reads of the machine. */
  datatype Machine = Machine(processes: Processes, now: real, capacityMb: Option<real>, availableMb: Option<real>)

  /** The arguments of `try_admit`, with the calling process. */
  datatype Request = Request(
    pid: int,
    megabytes: Mb,
    name: string,
    minFreeMb: real,
    since: Option<real>,
    expectedSeconds: Option<real>,
    drainAfter: Option<real>,
    drainMax: Option<real>,
    nightly: bool,
    declaredShort: bool)
  {
    function PlaceAt(now: real): Place { Place(Rank(nightly), since.Or(now), pid) }

    predicate IsShort() { declaredShort && megabytes <= SHORT_OWN_MB + KICAD_CHECK_MB }
  }

  // --- Room -----------------------------------------------------------------------

  /** What the reservations are still expected to grow by; `ownPid`'s count whole. */
  function Growth(rs: seq<Reservation>, processes: Processes, ownPid: int): Mb {
    if rs == [] then 0.0
    else
      var r := rs[0];
      (if r.megabytes > 0.0 then
         Max(0.0, r.megabytes - (if r.pid == ownPid then 0.0 else ResidentMb(r.pid, processes)))
       else 0.0)
      + Growth(rs[1..], processes, ownPid)
  }

  predicate LedgerClause(rs: seq<Reservation>, megabytes: Mb, capacityMb: Option<real>) {
    capacityMb.None? || Held(rs, All) + megabytes <= capacityMb.value
  }

  predicate FloorClause(rs: seq<Reservation>, megabytes: Mb, minFreeMb: real, availableMb: Option<real>,
                        processes: Processes, ownPid: int)
  {
    availableMb.None? || availableMb.value - Growth(rs, processes, ownPid) - megabytes >= minFreeMb
  }

  predicate MemoryRoom(rs: seq<Reservation>, megabytes: Mb, minFreeMb: real, capacityMb: Option<real>,
                       availableMb: Option<real>, processes: Processes, ownPid: int, alone: bool := true)
  {
    var ledgerOk := LedgerClause(rs, megabytes, capacityMb);
    var floorOk := FloorClause(rs, megabytes, minFreeMb, availableMb, processes, ownPid);
    var held := AnyHolder(rs, All);
    (ledgerOk && floorOk) || (alone && !held) || (!alone && !held && floorOk)
  }

  // --- Order ----------------------------------------------------------------------

  /** Ordered admission: no request passes the one that has waited longest. */
  predicate OrderAllows(others: seq<Reservation>, megabytes: Mb, place: Place, capacityMb: Option<real>) {
    if capacityMb.None? then true
    else
      var oldest := OldestWaiter(others);
      if oldest.None? || !Before(others[oldest.value].PlaceOf(), place) then true
      else
        var first := others[oldest.value];
        var wants := first.waitingMb.value;
        var rest := Without(others, oldest.value);
        var reserved := Held(rest, Lasting);
        var fitsNow := reserved + wants <= capacityMb.value || !AnyHolder(rest, Lasting);
        if fitsNow && !first.waitsOnFloor then
          reserved + megabytes + wants <= capacityMb.value
        else
          Held(rest, LastingSince(first.WaitingSince())) + megabytes + wants <= capacityMb.value
  }

  // --- Drain ----------------------------------------------------------------------

  function DrainAfter(r: Reservation): real {
    if r.nightly then 0.0
    else if r.drainAfter.Some? && r.drainAfter.value >= 0.0 then r.drainAfter.value
    else DEFAULT_DRAIN_AFTER_SECONDS
  }

  function DrainMax(r: Reservation): real {
    if r.drainMax.Some? && r.drainMax.value >= 0.0 then r.drainMax.value else DEFAULT_DRAIN_MAX_SECONDS
  }

  function AssumedFloorMb(r: Reservation): real {
    if r.floorMb.Some? then Max(0.0, r.floorMb.value)
    else if r.refreshed.None? then DEFAULT_FLOOR_MB
    else 0.0
  }

  function EntryFloorMb(r: Reservation): real { Max(0.0, r.floorMb.Or(0.0)) }

  /** A waiter's two rooms; None is unbounded. */
  datatype Rooms = Rooms(ledgerMb: Option<real>, floorMb: Option<real>) {
    predicate Cover(wants: real) {
      && (ledgerMb.Some? ==> ledgerMb.value >= wants)
      && (floorMb.Some? ==> floorMb.value >= wants)
    }

    /** The lesser room, where one is bounded. */
    function Least(): real
      requires ledgerMb.Some? || floorMb.Some?
    {
      if ledgerMb.None? then floorMb.value
      else if floorMb.None? || ledgerMb.value <= floorMb.value then ledgerMb.value
      else floorMb.value
    }
  }

  function WaiterRoom(waiter: Reservation, rest: seq<Reservation>, capacityMb: Option<real>, availableMb: Option<real>,
                      megabytes: Mb, freedMb: Mb, floorMb: real): Rooms
  {
    var reserved := Held(rest, All) - freedMb;
    Rooms(if capacityMb.None? then None else Some(capacityMb.value - reserved - megabytes),
          if availableMb.None? then None
          else Some(availableMb.value + freedMb - megabytes - floorMb + waiter.megabytes))
  }

  datatype Drain = NotYet | Stale(seconds: real) | CannotStart(roomMb: real) | PastBound(bound: real) | Drains {
    predicate IsDrain() { PastBound? || Drains? }
  }

  function DrainState(w: nat, others: seq<Reservation>, now: real, capacityMb: Option<real>,
                      availableMb: Option<real>): Drain
    requires w < |others| && others[w].Waits()
  {
    var waiter := others[w];
    var waited := now - waiter.WaitingSince();
    if waited < DrainAfter(waiter) then NotYet
    else if waiter.refreshed.Some? && now - waiter.refreshed.value > STALE_AFTER_SECONDS then
      Stale(now - waiter.refreshed.value)
    else
      var rest := Without(others, w);
      var newer := Held(rest, ShortOrSince(waiter.WaitingSince()));
      var rooms := WaiterRoom(waiter, rest, capacityMb, availableMb, 0.0, newer, AssumedFloorMb(waiter));
      if !rooms.Cover(waiter.waitingMb.value) then CannotStart(rooms.Least())
      else if waited > DrainMax(waiter) then PastBound(DrainMax(waiter))
      else Drains
  }

  /** `i` put into `order` behind every position whose place is no later. */
  function Inserted(others: seq<Reservation>, order: seq<nat>, i: nat): seq<nat>
    requires i < |others| && forall k :: 0 <= k < |order| ==> order[k] < |others|
  {
    if order == [] then [i]
    else if Before(others[i].PlaceOf(), others[order[0]].PlaceOf()) then [i] + order
    else [order[0]] + Inserted(others, order[1..], i)
  }

  predicate IsAhead(r: Reservation, place: Place) { r.Waits() && Before(r.PlaceOf(), place) }

  /** Every position of `order` is one of a waiter ahead of `place` among the first `n` entries. */
  predicate AllAhead(others: seq<Reservation>, order: seq<nat>, n: nat, place: Place)
    requires n <= |others|
  {
    forall k :: 0 <= k < |order| ==> order[k] < n && IsAhead(others[order[k]], place)
  }

  lemma {:induction false} InsertedAllAhead(others: seq<Reservation>, order: seq<nat>, n: nat, place: Place)
    requires n < |others| && AllAhead(others, order, n, place) && IsAhead(others[n], place)
    ensures AllAhead(others, Inserted(others, order, n), n + 1, place)
  {
    if order != [] {
      assert AllAhead(others, order[1..], n, place);
      InsertedAllAhead(others, order[1..], n, place);
    }
  }

  /** The waiters ahead of `place` among the first `n` entries, stably sorted by their places. */
  function SortedAhead(others: seq<Reservation>, n: nat, place: Place): (sorted: seq<nat>)
    requires n <= |others|
    ensures AllAhead(others, sorted, n, place)
  {
    if n == 0 then []
    else
      var earlier := SortedAhead(others, n - 1, place);
      if IsAhead(others[n - 1], place) then
        InsertedAllAhead(others, earlier, n - 1, place);
        Inserted(others, earlier, n - 1)
      else earlier
  }

  function FirstDrained(others: seq<Reservation>, order: seq<nat>, now: real, capacityMb: Option<real>,
                        availableMb: Option<real>): Option<nat>
    requires forall k :: 0 <= k < |order| ==> order[k] < |others| && others[order[k]].Waits()
  {
    if order == [] then None
    else if DrainState(order[0], others, now, capacityMb, availableMb).IsDrain() then Some(order[0])
    else FirstDrained(others, order[1..], now, capacityMb, availableMb)
  }

  /** The waiter a request with `place` is held to a drain for. */
  function DrainedFor(others: seq<Reservation>, place: Place, now: real, capacityMb: Option<real>,
                      availableMb: Option<real>): Option<nat> {
    FirstDrained(others, SortedAhead(others, |others|, place), now, capacityMb, availableMb)
  }

  /** Whether `waiter` at `w` cannot fit before a run larger than `smallMb` ends. */
  predicate BlockedByLarge(w: nat, others: seq<Reservation>, capacityMb: Option<real>, availableMb: Option<real>,
                           smallMb: Mb)
    requires w < |others| && others[w].Waits()
  {
    var waiter := others[w];
    var rest := Without(others, w);
    var small := Held(rest, LastingUpTo(smallMb)) + Held(rest, Short);
    && AnyHolder(rest, LastingAbove(smallMb))
    && !WaiterRoom(waiter, rest, capacityMb, availableMb, 0.0, small,
                   EntryFloorMb(waiter)).Cover(waiter.waitingMb.value)
  }

  /** Whether a request expected to end at `expectedEnd` ends no later than every lasting run that holds memory. */
  predicate EndsFirst(rest: seq<Reservation>, expectedEnd: Option<real>) {
    && expectedEnd.Some?
    && AnyHolder(rest, Lasting)
    && forall i :: 0 <= i < |rest| && In(rest[i], Lasting) && rest[i].megabytes > 0.0 ==>
         rest[i].expectedEnd.Some? && expectedEnd.value <= rest[i].expectedEnd.value
  }

  predicate DrainAllows(w: nat, others: seq<Reservation>, megabytes: Mb, capacityMb: Option<real>,
                        availableMb: Option<real>, expectedEnd: Option<real>, smallMb: Mb := SMALL_REQUEST_MB)
    requires w < |others| && others[w].Waits()
  {
    var waiter := others[w];
    var rest := Without(others, w);
    if WaiterRoom(waiter, rest, capacityMb, availableMb, megabytes, Held(rest, Short), EntryFloorMb(waiter))
       .Cover(waiter.waitingMb.value)
    then true
    else if megabytes <= smallMb && BlockedByLarge(w, others, capacityMb, availableMb, smallMb) then true
    else !waiter.nightly && EndsFirst(rest, expectedEnd)
  }

  // --- One try --------------------------------------------------------------------

  /** What a request sees when it tries: the living entries without its own waiting one. */
  function Others(rs: seq<Reservation>, machine: Machine, q: Request): seq<Reservation> {
    Kept(Kept(rs, Living(machine.processes)), NotWaiting(q.pid, q.name, q.since))
  }

  /** MemAvailable less what the reservations still grow by; read only where something waits. */
  function SeenMb(others: seq<Reservation>, machine: Machine, pid: int): Option<real> {
    if machine.availableMb.None? || OldestWaiter(others).None? then None
    else Some(machine.availableMb.value - Growth(others, machine.processes, pid))
  }

  function ExpectedEnd(machine: Machine, q: Request): Option<real> {
    if q.expectedSeconds.None? then None else Some(machine.now + q.expectedSeconds.value)
  }

  predicate Fits(others: seq<Reservation>, machine: Machine, q: Request) {
    MemoryRoom(others, q.megabytes, q.minFreeMb, machine.capacityMb, machine.availableMb, machine.processes, q.pid)
  }

  function DrainedWaiter(others: seq<Reservation>, machine: Machine, q: Request): Option<nat> {
    DrainedFor(others, q.PlaceAt(machine.now), machine.now, machine.capacityMb, SeenMb(others, machine, q.pid))
  }

  /** Whether the drain held to is strict: past its bound no request passes on an earlier end. */
  predicate StrictDrain(w: nat, others: seq<Reservation>, machine: Machine, q: Request)
    requires w < |others| && others[w].Waits()
  {
    DrainState(w, others, machine.now, machine.capacityMb, SeenMb(others, machine, q.pid)).PastBound?
  }

  lemma {:induction false} FirstDrainedIsWaiter(others: seq<Reservation>, order: seq<nat>, now: real,
                                                capacityMb: Option<real>, availableMb: Option<real>)
    requires forall k :: 0 <= k < |order| ==> order[k] < |others| && others[order[k]].Waits()
    ensures var w := FirstDrained(others, order, now, capacityMb, availableMb);
            w.Some? ==> w.value in order && DrainState(w.value, others, now, capacityMb, availableMb).IsDrain()
    ensures FirstDrained(others, order, now, capacityMb, availableMb).None? ==>
              forall k :: 0 <= k < |order| ==> !DrainState(order[k], others, now, capacityMb, availableMb).IsDrain()
  {
    if order != [] {
      FirstDrainedIsWaiter(others, order[1..], now, capacityMb, availableMb);
    }
  }

  /** The order and the drain together. */
  predicate Ordered(others: seq<Reservation>, machine: Machine, q: Request) {
    && OrderAllows(others, q.megabytes, q.PlaceAt(machine.now), machine.capacityMb)
    && var drained := DrainedWaiter(others, machine, q);
       drained.Some? ==>
         (FirstDrainedIsWaiter(others, SortedAhead(others, |others|, q.PlaceAt(machine.now)), machine.now,
                               machine.capacityMb, SeenMb(others, machine, q.pid));
          DrainAllows(drained.value, others, q.megabytes, machine.capacityMb, SeenMb(others, machine, q.pid),
                      if StrictDrain(drained.value, others, machine, q) then None else ExpectedEnd(machine, q)))
  }

  predicate Admits(others: seq<Reservation>, machine: Machine, q: Request) {
    Fits(others, machine, q) && (Ordered(others, machine, q) || q.IsShort())
  }

  /** The entry of an admitted request. */
  function HoldingEntry(machine: Machine, q: Request): Reservation {
    Reservation(q.pid, machine.now, StartTicks(q.pid, machine.processes), q.megabytes, q.name,
                Some(machine.now), q.IsShort(), ExpectedEnd(machine, q), q.nightly,
                None, None, None, None, None, None, false, None)
  }

  /** The entry of a request that waits on, since `since`. */
  function WaitingEntry(others: seq<Reservation>, machine: Machine, q: Request, since: real): Reservation {
    var onFloor :=
      && !Fits(others, machine, q)
      && MemoryRoom(others, q.megabytes, q.minFreeMb, machine.capacityMb, None, machine.processes, q.pid);
    Reservation(q.pid, since, StartTicks(q.pid, machine.processes), 0.0, q.name,
                None, false, None, q.nightly,
                Some(q.megabytes), Some(since), Some(machine.now),
                if q.minFreeMb > 0.0 then Some(q.minFreeMb) else None, q.drainAfter, q.drainMax, onFloor, None)
  }

  /** The ledger after a try. */
  function AfterTry(rs: seq<Reservation>, machine: Machine, q: Request): seq<Reservation> {
    var others := Others(rs, machine, q);
    if Admits(others, machine, q) then others + [HoldingEntry(machine, q)]
    else if q.since.Some? then others + [WaitingEntry(others, machine, q, q.since.value)]
    else others
  }

  // --- Handing over, releasing, withdrawing ---------------------------------------

  function IndexOfKey(rs: seq<Reservation>, key: Key): (i: Option<nat>)
    ensures i.Some? ==>
              i.value < |rs| && rs[i.value].KeyOf() == key && forall j :: 0 <= j < i.value ==> rs[j].KeyOf() != key
    ensures i.None? ==> forall j :: 0 <= j < |rs| ==> rs[j].KeyOf() != key
  {
    if rs == [] then None
    else if rs[0].KeyOf() == key then Some(0)
    else
      var later := IndexOfKey(rs[1..], key);
      assert forall j :: 0 < j < |rs| ==> rs[j] == rs[1..][j - 1];
      if later.None? then None else Some(later.value + 1)
  }

  function IndexOfPid(rs: seq<Reservation>, pid: int): (i: Option<nat>)
    ensures i.Some? ==> i.value < |rs| && rs[i.value].pid == pid && forall j :: 0 <= j < i.value ==> rs[j].pid != pid
    ensures i.None? ==> forall j :: 0 <= j < |rs| ==> rs[j].pid != pid
  {
    if rs == [] then None
    else if rs[0].pid == pid then Some(0)
    else
      var later := IndexOfPid(rs[1..], pid);
      assert forall j :: 0 < j < |rs| ==> rs[j] == rs[1..][j - 1];
      if later.None? then None else Some(later.value + 1)
  }

  /** `theirs` with the larger of its megabytes and the grant. */
  function Merged(theirs: Reservation, granted: Mb): Reservation {
    theirs.(megabytes := Max(theirs.megabytes, granted),
            grantedMb := Some(Max(theirs.grantedMb.Or(0.0), granted)))
  }

  function HandedOver(mine: Reservation, pid: int, processes: Processes): Reservation {
    mine.(pid := pid, startTicks := StartTicks(pid, processes), grantedMb := Some(mine.megabytes))
  }

  /** Whether handing `key` to `pid` merges two entries. */
  predicate Merges(living: seq<Reservation>, key: Key, pid: int) {
    IndexOfKey(living, key).Some? && IndexOfPid(living, pid).Some?
  }

  /** The ledger after `move`. An entry that is itself the first of `pid` is removed and updated
      outside the list: it is gone. */
  function AfterMove(living: seq<Reservation>, key: Key, pid: int, processes: Processes): seq<Reservation> {
    var mine, theirs := IndexOfKey(living, key), IndexOfPid(living, pid);
    if mine.None? then living
    else if theirs.None? then living[mine.value := HandedOver(living[mine.value], pid, processes)]
    else if theirs.value == mine.value then Without(living, mine.value)
    else Without(living[theirs.value := Merged(living[theirs.value], living[mine.value].megabytes)], mine.value)
  }
}
