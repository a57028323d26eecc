/** The memory ledger's object: its methods change the list of reservations in place, each as one step. */
module MemoryLedger {
  import opened Options
  import opened Arithmetic
  import opened Reservations
  import opened Admission
  import opened Order
  import opened Runs

  /** The entry holds what the request asked for, from now on, until the end it declared and as long as its process
      runs. */
  ghost predicate Holds(r: Reservation, machine: Machine, q: Request) {
    && r.KeyOf() == Key(q.pid, machine.now, q.name) && r.megabytes == q.megabytes && !r.Waits()
    && r.HeldSince() == machine.now && r.isShort == q.IsShort() && r.nightly == q.nightly
    && (r.expectedEnd.Some? <==> q.expectedSeconds.Some?)
    && (r.expectedEnd.Some? ==> r.expectedEnd.value - r.HeldSince() == q.expectedSeconds.value)
    && LivesWith(r, q.pid, machine.processes)
  }

  ghost predicate HasEntry(rs: seq<Reservation>, machine: Machine, q: Request) {
    exists r :: r in rs && Holds(r, machine, q)
  }

  /** The entry holds nothing and says to the rules that read it what the request asked for: its place, its
      megabytes, its floor (never that of older writers' entries), its drain, and whether it is its floor alone
      that holds it back. */
  ghost predicate Asks(r: Reservation, others: seq<Reservation>, machine: Machine, q: Request) {
    && IsWaitingEntry(r, q.pid, q.name, q.since) && r.waitingMb == Some(q.megabytes) && r.megabytes == 0.0
    && r.PlaceOf() == q.PlaceAt(machine.now) && r.refreshed == Some(machine.now)
    && AssumedFloorMb(r) == EntryFloorMb(r) == Max(0.0, q.minFreeMb)
    && (q.nightly ==> DrainAfter(r) == 0.0)
    && (!q.nightly && q.drainAfter.Some? && q.drainAfter.value >= 0.0 ==> DrainAfter(r) == q.drainAfter.value)
    && (!q.nightly && (q.drainAfter.None? || q.drainAfter.value < 0.0) ==> DrainAfter(r) == DEFAULT_DRAIN_AFTER_SECONDS)
    && (q.drainMax.Some? && q.drainMax.value >= 0.0 ==> DrainMax(r) == q.drainMax.value)
    && (q.drainMax.None? || q.drainMax.value < 0.0 ==> DrainMax(r) == DEFAULT_DRAIN_MAX_SECONDS)
    && LivesWith(r, q.pid, machine.processes) && !r.isShort
    && (r.waitsOnFloor <==>
          && AnyHolder(others, All) && LedgerClause(others, q.megabytes, machine.capacityMb)
          && !FloorClause(others, q.megabytes, q.minFreeMb, machine.availableMb, machine.processes, q.pid))
  }

  ghost predicate HasWaiting(rs: seq<Reservation>, others: seq<Reservation>, machine: Machine, q: Request) {
    exists r :: r in rs && Asks(r, others, machine, q)
  }

  lemma HoldingEntryHolds(machine: Machine, q: Request)
    ensures Holds(HoldingEntry(machine, q), machine, q)
  {
    EntryLivesWith(HoldingEntry(machine, q), machine.processes);
  }

  lemma WaitingEntryAsks(others: seq<Reservation>, machine: Machine, q: Request)
    requires q.since.Some?
    ensures Asks(WaitingEntry(others, machine, q, q.since.value), others, machine, q)
  {
    EntryLivesWith(WaitingEntry(others, machine, q, q.since.value), machine.processes);
    assert MemoryRoom(others, q.megabytes, q.minFreeMb, machine.capacityMb, None, machine.processes, q.pid)
           <==> LedgerClause(others, q.megabytes, machine.capacityMb) || !AnyHolder(others, All);
  }

  /** A try ends with the request's reservation in the list, or with its waiting entry, behind all that it sees. */
  lemma TryLeavesEntry(rs: seq<Reservation>, machine: Machine, q: Request)
    ensures var others, after := Others(rs, machine, q), AfterTry(rs, machine, q);
            && (Admits(others, machine, q) ==> HasEntry(after, machine, q))
            && (!Admits(others, machine, q) && q.since.Some? ==> HasWaiting(after, others, machine, q))
            && others <= after
            && |after| == |others| + (if Admits(others, machine, q) || q.since.Some? then 1 else 0)
  {
    var others, after := Others(rs, machine, q), AfterTry(rs, machine, q);
    if Admits(others, machine, q) {
      HoldingEntryHolds(machine, q);
      assert HoldingEntry(machine, q) in after;
    } else if q.since.Some? {
      WaitingEntryAsks(others, machine, q);
      assert WaitingEntry(others, machine, q, q.since.value) in after;
    }
  }

  /** What one try decides beside `others`; a refused request that fits comes behind the waiter it names. */
  method Decide(others: seq<Reservation>, machine: Machine, q: Request)
    returns (admitted: bool, behind: Option<Reservation>)
    ensures admitted == Admits(others, machine, q)
    ensures behind.Some? <==> Fits(others, machine, q) && !admitted
    ensures behind.Some? ==>
              behind.value in others && behind.value.Waits() && Before(behind.value.PlaceOf(), q.PlaceAt(machine.now))
  {
    var fits := Fits(others, machine, q);
    var ordered := OrderAllows(others, q.megabytes, q.PlaceAt(machine.now), machine.capacityMb);
    var seen := SeenMb(others, machine, q.pid);
    var drained := DrainedWaiter(others, machine, q);
    if drained.Some? && ordered {
      DrainedForDrainsAhead(others, q.PlaceAt(machine.now), machine.now, machine.capacityMb, seen);
      var strict := DrainState(drained.value, others, machine.now, machine.capacityMb, seen).PastBound?;
      ordered := DrainAllows(drained.value, others, q.megabytes, machine.capacityMb, seen,
                             if strict then None else ExpectedEnd(machine, q));
    }
    admitted := fits && (ordered || q.IsShort());
    behind := None;
    if fits && !admitted {
      RefusalHasOlderWaiter(others, machine, q);
      behind := Some(others[OldestWaiter(others).value]);
    }
  }

  class Ledger {
    var reservations: seq<Reservation>

    /** An empty ledger. */
    constructor ()
      ensures reservations == []
      ensures forall capacityMb :: Safe(reservations, capacityMb)
    {
      reservations := [];
      new;
      assert Holders(reservations) == 0;
    }

    /** Drops the dead, as every update does first. */
    method DropDead(machine: Machine)
      modifies this
      ensures reservations == Kept(old(reservations), Living(machine.processes))
    {
      reservations := Kept(reservations, Living(machine.processes));
    }

    /** Adds a reservation without asking for room. */
    method Reserve(machine: Machine, megabytes: Mb, name: string, pid: int) returns (key: Key)
      modifies this
      ensures key == Key(pid, machine.now, name)
      ensures |reservations| > 0
      ensures reservations[..|reservations| - 1] == Kept(old(reservations), Living(machine.processes))
      ensures var entry := reservations[|reservations| - 1];
              && entry.KeyOf() == key && entry.megabytes == megabytes && !entry.Waits()
              && entry.HeldSince() == machine.now && !entry.isShort && !entry.nightly && entry.expectedEnd.None?
              && LivesWith(entry, pid, machine.processes)
      ensures Held(reservations, All) == Held(Kept(old(reservations), Living(machine.processes)), All) + megabytes
    {
      DropDead(machine);
      var entry := Reservation(pid, machine.now, StartTicks(pid, machine.processes), megabytes, name,
                               None, false, None, false, None, None, None, None, None, None, false, None);
      EntryLivesWith(entry, machine.processes);
      HeldWithOneMore(reservations, entry, All);
      reservations := reservations + [entry];
      key := entry.KeyOf();
    }

    /** Admits the request where it fits and passes nobody, or leaves its waiting entry. A safe ledger stays
        safe, an earlier waiting entry is replaced, and a request that fits but is refused has an older waiter
        to name (`behind`). */
    method TryAdmit(machine: Machine, q: Request) returns (key: Option<Key>, behind: Option<Reservation>)
      modifies this
      ensures reservations == Next(old(reservations), Event(machine, Try(q)))
      ensures machine.capacityMb.Some? && old(Safe(reservations, machine.capacityMb.value)) ==>
                Safe(reservations, machine.capacityMb.value)
      ensures key == if Admitting(old(reservations), Event(machine, Try(q)))
                     then Some(Key(q.pid, machine.now, q.name)) else None
      ensures key.Some? ==> HasEntry(reservations, machine, q)
      ensures key.None? && q.since.Some? ==> HasWaiting(reservations, old(Others(reservations, machine, q)), machine, q)
      ensures behind.Some? ==> behind.value.Waits() && Before(behind.value.PlaceOf(), q.PlaceAt(machine.now))
    {
      TryLeavesEntry(reservations, machine, q);
      if machine.capacityMb.Some? && Safe(reservations, machine.capacityMb.value) {
        TrySafe(reservations, machine, q, machine.capacityMb.value);
      }
      DropDead(machine);
      reservations := Kept(reservations, NotWaiting(q.pid, q.name, q.since));
      var admitted;
      admitted, behind := Decide(reservations, machine, q);
      if admitted {
        reservations := reservations + [HoldingEntry(machine, q)];
        return Some(Key(q.pid, machine.now, q.name)), behind;
      }
      if q.since.Some? {
        reservations := reservations + [WaitingEntry(reservations, machine, q, q.since.value)];
      }
      key := None;
    }

    /** Takes back a request's waiting entry. */
    method WithdrawEntry(machine: Machine, pid: int, name: string, since: real)
      modifies this
      ensures reservations == Next(old(reservations), Event(machine, Withdraw(pid, name, since)))
      ensures forall r :: r in reservations ==> !IsWaitingEntry(r, pid, name, Some(since))
    {
      DropDead(machine);
      reservations := Kept(reservations, NotWaiting(pid, name, Some(since)));
    }

    /** Hands the reservation `key` to process `pid`; one that `pid` has already gets the larger of the two. */
    method MoveTo(machine: Machine, key: Key, pid: int) returns (moved: Option<Key>)
      modifies this
      ensures reservations == Next(old(reservations), Event(machine, Move(key, pid)))
      ensures Held(reservations, All) <= Held(old(reservations), All)
      ensures moved.Some? <==> IndexOfKey(Kept(old(reservations), Living(machine.processes)), key).Some?
                               && forall r :: r in Kept(old(reservations), Living(machine.processes)) ==> r.pid != pid
      ensures moved.Some? ==>
                && moved.value == Key(pid, key.started, key.name)
                && exists r :: r in reservations && r.KeyOf() == moved.value
    {
      KeptHoldsAtMost(reservations, Living(machine.processes), All);
      DropDead(machine);
      MoveHoldsAtMost(reservations, key, pid, machine.processes);
      var mine := IndexOfKey(reservations, key);
      if mine.None? {
        return None;
      }
      var granted := reservations[mine.value].megabytes;
      var theirs := IndexOfPid(reservations, pid);
      if theirs.Some? {
        assert reservations[theirs.value] in reservations;
        if theirs.value != mine.value {
          reservations := reservations[theirs.value := Merged(reservations[theirs.value], granted)];
        }
        reservations := Without(reservations, mine.value);
        return None;
      }
      reservations := reservations[mine.value := HandedOver(reservations[mine.value], pid, machine.processes)];
      assert reservations[mine.value].KeyOf() == Key(pid, key.started, key.name);
      moved := Some(Key(pid, key.started, key.name));
    }

    /** Removes reservation `key`; nothing without one. */
    method ReleaseKey(machine: Machine, key: Option<Key>)
      modifies this
      ensures key.Some? ==> reservations == Next(old(reservations), Event(machine, Release(key.value)))
      ensures key.Some? ==> forall r :: r in reservations ==> r.KeyOf() != key.value
      ensures key.None? ==> reservations == old(reservations)
    {
      if key.None? {
        return;
      }
      DropDead(machine);
      reservations := Kept(reservations, NotKey(key.value));
    }
  }
}
