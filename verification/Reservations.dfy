/** The memory ledger's entries, what groups of them hold, and the order of the waiting ones. */
module Reservations {
  import opened Options
  import opened Sequences

  /** An amount of memory in MB. */
  type Mb = x: real | x >= 0.0

  /** One dictionary of the ledger's list. A field the source may leave out is an Option;
      `waitingMb` marks a waiting request. Entries are told apart by their position. */
  datatype Reservation = Reservation(
    pid: int,
    started: real,
    startTicks: Option<int>,
    megabytes: Mb,
    name: string,
    heldSince: Option<real>,
    isShort: bool,
    expectedEnd: Option<real>,
    nightly: bool,
    waitingMb: Option<Mb>,
    waitingSince: Option<real>,
    refreshed: Option<real>,
    floorMb: Option<real>,
    drainAfter: Option<real>,
    drainMax: Option<real>,
    waitsOnFloor: bool,
    grantedMb: Option<Mb>)
  {
    function WaitingSince(): real { waitingSince.Or(started) }

    function HeldSince(): real { heldSince.Or(started) }

    predicate Waits() { waitingMb.Some? }

    function KeyOf(): Key { Key(pid, started, name) }

    function PlaceOf(): Place { Place(Rank(nightly), WaitingSince(), pid) }
  }

  datatype Key = Key(pid: int, started: real, name: string)

  /** A live or dying process as /proc shows it. */
  datatype Process = Process(zombie: bool, ticks: int, residentMb: Mb)

  type Processes = map<int, Process>

  function StartTicks(pid: int, processes: Processes): Option<int> {
    if pid in processes then Some(processes[pid].ticks) else None
  }

  function ResidentMb(pid: int, processes: Processes): Mb {
    if pid in processes then processes[pid].residentMb else 0.0
  }

  predicate Alive(r: Reservation, processes: Processes) {
    && r.pid in processes
    && !processes[r.pid].zombie
    && (r.startTicks.None? || processes[r.pid].ticks == r.startTicks.value)
  }

  // --- Places among the waiting ---------------------------------------------------

  /** Where a waiter stands. A lower rank comes first, of one rank the earlier wait, of one time the lower pid. */
  datatype Place = Place(rank: int, since: real, pid: int)

  function Rank(nightly: bool): int { if nightly then 0 else 1 }

  predicate Before(a: Place, b: Place) {
    a.rank < b.rank || (a.rank == b.rank && (a.since < b.since || (a.since == b.since && a.pid < b.pid)))
  }

  /** The first waiter among the first `n` entries: the least place, the earliest entry on a tie. */
  function FirstWaiterAmong(rs: seq<Reservation>, n: nat): (first: Option<nat>)
    requires n <= |rs|
    ensures first.Some? ==> first.value < n && rs[first.value].Waits()
    ensures first.Some? ==> forall j :: 0 <= j < n && rs[j].Waits() ==>
              !Before(rs[j].PlaceOf(), rs[first.value].PlaceOf())
    ensures first.Some? ==> forall j :: 0 <= j < first.value && rs[j].Waits() ==>
              Before(rs[first.value].PlaceOf(), rs[j].PlaceOf())
    ensures first.None? ==> forall j :: 0 <= j < n ==> !rs[j].Waits()
  {
    if n == 0 then None
    else
      var earlier := FirstWaiterAmong(rs, n - 1);
      if rs[n - 1].Waits() && (earlier.None? || Before(rs[n - 1].PlaceOf(), rs[earlier.value].PlaceOf())) then
        Some(n - 1)
      else earlier
  }

  function OldestWaiter(rs: seq<Reservation>): (first: Option<nat>)
    ensures first.Some? ==> first.value < |rs| && rs[first.value].Waits()
    ensures first.Some? ==> forall j :: 0 <= j < |rs| && rs[j].Waits() ==>
              !Before(rs[j].PlaceOf(), rs[first.value].PlaceOf())
    ensures first.None? ==> forall j :: 0 <= j < |rs| ==> !rs[j].Waits()
  {
    FirstWaiterAmong(rs, |rs|)
  }

  lemma {:induction false} FirstWaiterOfPrefix(rs: seq<Reservation>, more: seq<Reservation>, n: nat)
    requires n <= |rs|
    ensures FirstWaiterAmong(rs + more, n) == FirstWaiterAmong(rs, n)
  {
    if n > 0 {
      FirstWaiterOfPrefix(rs, more, n - 1);
    }
  }

  /** An entry that does not wait leaves the first waiter as it was. */
  lemma OldestWaiterBesideHolder(rs: seq<Reservation>, holder: Reservation)
    requires !holder.Waits()
    ensures OldestWaiter(rs + [holder]) == OldestWaiter(rs)
  {
    FirstWaiterOfPrefix(rs, [holder], |rs|);
  }

  // --- Sums over groups of entries ------------------------------------------------

  /** The groups whose megabytes the rules add up. Lasting: not short. */
  datatype Share =
    | All
    | Short
    | Lasting
    | LastingSince(since: real)
    | LastingAfter(time: real)
    | ShortOrSince(since: real)
    | LastingAbove(bound: real)
    | LastingUpTo(bound: real)

  predicate In(r: Reservation, share: Share) {
    match share
    case All => true
    case Short => r.isShort
    case Lasting => !r.isShort
    case LastingSince(since) => !r.isShort && r.HeldSince() >= since
    case LastingAfter(time) => !r.isShort && r.HeldSince() > time
    case ShortOrSince(since) => r.isShort || r.HeldSince() >= since
    case LastingAbove(bound) => !r.isShort && r.megabytes > bound
    case LastingUpTo(bound) => !r.isShort && r.megabytes <= bound
  }

  function Part(r: Reservation, share: Share): Mb {
    if In(r, share) then r.megabytes else 0.0
  }

  /** The megabytes that the entries of `rs` in `share` hold together. */
  function Held(rs: seq<Reservation>, share: Share): Mb {
    if rs == [] then 0.0 else Part(rs[0], share) + Held(rs[1..], share)
  }

  /** Whether an entry of `rs` in `share` holds memory. */
  predicate AnyHolder(rs: seq<Reservation>, share: Share) {
    exists i :: 0 <= i < |rs| && In(rs[i], share) && rs[i].megabytes > 0.0
  }

  lemma {:induction false} HeldOfConcat(a: seq<Reservation>, b: seq<Reservation>, share: Share)
    ensures Held(a + b, share) == Held(a, share) + Held(b, share)
  {
    if a == [] {
      assert a + b == b;
    } else {
      assert (a + b)[1..] == a[1..] + b;
      HeldOfConcat(a[1..], b, share);
    }
  }

  lemma HeldWithOneMore(rs: seq<Reservation>, r: Reservation, share: Share)
    ensures Held(rs + [r], share) == Held(rs, share) + Part(r, share)
  {
    HeldOfConcat(rs, [r], share);
  }

  /** `rs` without its entry at `i`, told by its position. */
  function Without(rs: seq<Reservation>, i: nat): seq<Reservation>
    requires i < |rs|
  {
    rs[..i] + rs[i + 1..]
  }

  lemma HeldWithout(rs: seq<Reservation>, i: nat, share: Share)
    requires i < |rs|
    ensures Held(Without(rs, i), share) == Held(rs, share) - Part(rs[i], share)
  {
    AroundIndex(rs, i);
    HeldOfConcat(rs[..i], [rs[i]] + rs[i + 1..], share);
    HeldOfConcat([rs[i]], rs[i + 1..], share);
    HeldOfConcat(rs[..i], rs[i + 1..], share);
  }

  lemma HeldUpdated(rs: seq<Reservation>, i: nat, r: Reservation, share: Share)
    requires i < |rs|
    ensures Held(rs[i := r], share) == Held(rs, share) - Part(rs[i], share) + Part(r, share)
  {
    HeldWithout(rs, i, share);
    HeldWithout(rs[i := r], i, share);
    assert Without(rs[i := r], i) == Without(rs, i);
  }

  /** One group's megabytes are at most another's that takes at least as much of every entry. */
  lemma {:induction false} HeldAtMost(rs: seq<Reservation>, less: Share, more: Share)
    requires forall i :: 0 <= i < |rs| ==> Part(rs[i], less) <= Part(rs[i], more)
    ensures Held(rs, less) <= Held(rs, more)
  {
    if rs != [] {
      assert forall i :: 0 <= i < |rs[1..]| ==> rs[1..][i] == rs[i + 1];
      HeldAtMost(rs[1..], less, more);
    }
  }

  lemma {:induction false} LastingAndShort(rs: seq<Reservation>)
    ensures Held(rs, All) == Held(rs, Lasting) + Held(rs, Short)
  {
    if rs != [] {
      LastingAndShort(rs[1..]);
    }
  }

  lemma {:induction false} AboveAndUpTo(rs: seq<Reservation>, bound: real)
    ensures Held(rs, Lasting) == Held(rs, LastingAbove(bound)) + Held(rs, LastingUpTo(bound))
  {
    if rs != [] {
      AboveAndUpTo(rs[1..], bound);
    }
  }

  /** The entries that are picked, in their order. */
  function Picked(rs: seq<Reservation>, picks: Reservation -> bool): seq<Reservation> {
    if rs == [] then [] else (if picks(rs[0]) then [rs[0]] else []) + Picked(rs[1..], picks)
  }

  /** A group's megabytes are those of its entries. */
  lemma {:induction false} HeldByPicked(rs: seq<Reservation>, share: Share, picks: Reservation -> bool)
    requires forall r :: In(r, share) <==> picks(r)
    ensures Held(Picked(rs, picks), All) == Held(rs, share)
  {
    if rs != [] {
      HeldByPicked(rs[1..], share, picks);
      var rest := Picked(rs[1..], picks);
      assert ([rs[0]] + rest)[1..] == rest && [] + rest == rest;
    }
  }

  /** A group holds something exactly when its sum is positive. */
  lemma {:induction false} HoldersAndHeld(rs: seq<Reservation>, share: Share)
    ensures AnyHolder(rs, share) <==> Held(rs, share) > 0.0
  {
    if rs != [] {
      HoldersAndHeld(rs[1..], share);
      assert forall i :: 0 <= i < |rs[1..]| ==> rs[1..][i] == rs[i + 1];
      if AnyHolder(rs, share) {
        var i :| 0 <= i < |rs| && In(rs[i], share) && rs[i].megabytes > 0.0;
        if i > 0 {
          assert In(rs[1..][i - 1], share);
        }
      }
      if Held(rs, share) > 0.0 && Part(rs[0], share) == 0.0 {
        var i :| 0 <= i < |rs[1..]| && In(rs[1..][i], share) && rs[1..][i].megabytes > 0.0;
        assert In(rs[i + 1], share);
      }
    }
  }

  /** How many entries hold memory. */
  function Holders(rs: seq<Reservation>): nat {
    if rs == [] then 0 else (if rs[0].megabytes > 0.0 then 1 else 0) + Holders(rs[1..])
  }

  lemma {:induction false} HoldersOfConcat(a: seq<Reservation>, b: seq<Reservation>)
    ensures Holders(a + b) == Holders(a) + Holders(b)
  {
    if a == [] {
      assert a + b == b;
    } else {
      assert (a + b)[1..] == a[1..] + b;
      HoldersOfConcat(a[1..], b);
    }
  }

  lemma HoldersOfThree(a: seq<Reservation>, r: Reservation, b: seq<Reservation>)
    ensures Holders(a + [r] + b) == Holders(a) + (if r.megabytes > 0.0 then 1 else 0) + Holders(b)
  {
    assert a + [r] + b == a + ([r] + b);
    HoldersOfConcat(a, [r] + b);
    assert ([r] + b)[1..] == b;
  }

  lemma HoldersWithout(rs: seq<Reservation>, i: nat)
    requires i < |rs|
    ensures Holders(Without(rs, i)) == Holders(rs) - (if rs[i].megabytes > 0.0 then 1 else 0)
  {
    var before, after := rs[..i], rs[i + 1..];
    HoldersOfThree(before, rs[i], after);
    HoldersOfConcat(before, after);
    AroundIndex(rs, i);
  }

  lemma {:induction false} NoHolders(rs: seq<Reservation>)
    ensures !AnyHolder(rs, All) <==> Holders(rs) == 0
  {
    if rs != [] {
      NoHolders(rs[1..]);
      assert forall i :: 0 <= i < |rs[1..]| ==> rs[1..][i] == rs[i + 1];
      if AnyHolder(rs[1..], All) {
        var i :| 0 <= i < |rs[1..]| && In(rs[1..][i], All) && rs[1..][i].megabytes > 0.0;
        assert In(rs[i + 1], All);
      }
      if rs[0].megabytes > 0.0 {
        assert In(rs[0], All);
      }
    }
  }

  // --- The ledger's list comprehensions -------------------------------------------

  /** What an update keeps: the living, all but a request's waiting entry, all but one key. */
  datatype Test =
    | Living(processes: Processes)
    | NotWaiting(pid: int, name: string, since: Option<real>)
    | NotKey(key: Key)

  predicate IsWaitingEntry(r: Reservation, pid: int, name: string, since: Option<real>) {
    since.Some? && r.pid == pid && r.name == name && r.Waits() && r.WaitingSince() == since.value
  }

  predicate Passes(r: Reservation, test: Test) {
    match test
    case Living(processes) => Alive(r, processes)
    case NotWaiting(pid, name, since) => !IsWaitingEntry(r, pid, name, since)
    case NotKey(key) => r.KeyOf() != key
  }

  /** The entries of `rs` that pass, in their order. */
  function Kept(rs: seq<Reservation>, test: Test): (kept: seq<Reservation>)
    ensures forall r :: r in kept <==> r in rs && Passes(r, test)
  {
    if rs == [] then []
    else if Passes(rs[0], test) then [rs[0]] + Kept(rs[1..], test)
    else Kept(rs[1..], test)
  }

  /** Each entry is kept or dropped by itself, in its place. */
  lemma {:induction false} KeptOfConcat(a: seq<Reservation>, b: seq<Reservation>, test: Test)
    ensures Kept(a + b, test) == Kept(a, test) + Kept(b, test)
  {
    if a == [] {
      assert a + b == b;
    } else {
      assert (a + b)[1..] == a[1..] + b;
      KeptOfConcat(a[1..], b, test);
    }
  }

  lemma KeptOfOne(r: Reservation, test: Test)
    ensures Kept([r], test) == if Passes(r, test) then [r] else []
  {
    assert [r][1..] == [];
  }

  /** Dropping entries frees memory: no group holds more after it. */
  lemma {:induction false} KeptHoldsAtMost(rs: seq<Reservation>, test: Test, share: Share)
    ensures Held(Kept(rs, test), share) <= Held(rs, share)
    ensures Holders(Kept(rs, test)) <= Holders(rs)
  {
    if rs != [] {
      KeptHoldsAtMost(rs[1..], test, share);
      var kept := Kept(rs[1..], test);
      assert ([rs[0]] + kept)[1..] == kept;
    }
  }
}
