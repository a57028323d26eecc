/** The ledger as a transition system: every update is one atomic step under its lock. */
module Runs {
  import opened Options
  import opened Reservations
  import opened Admission

  datatype Action =
    | Try(q: Request)
    | Withdraw(pid: int, name: string, since: real)
    | Move(key: Key, toPid: int)
    | Release(held: Key)
    | Look

  /** One update: what it reads of the machine, and what it does. Deaths show in `machine.processes`. */
  datatype Event = Event(machine: Machine, action: Action)

  function LivingOf(rs: seq<Reservation>, e: Event): seq<Reservation> {
    Kept(rs, Living(e.machine.processes))
  }

  function Next(rs: seq<Reservation>, e: Event): seq<Reservation> {
    match e.action
    case Try(q) => AfterTry(rs, e.machine, q)
    case Withdraw(pid, name, since) => Kept(LivingOf(rs, e), NotWaiting(pid, name, Some(since)))
    case Move(key, pid) => AfterMove(LivingOf(rs, e), key, pid, e.machine.processes)
    case Release(key) => Kept(LivingOf(rs, e), NotKey(key))
    case Look => LivingOf(rs, e)
  }

  function After(rs: seq<Reservation>, events: seq<Event>): seq<Reservation>
    decreases |events|
  {
    if events == [] then rs else After(Next(rs, events[0]), events[1..])
  }

  /** Whether the step admits a request. */
  predicate Admitting(rs: seq<Reservation>, e: Event) {
    e.action.Try? && Admits(Others(rs, e.machine, e.action.q), e.machine, e.action.q)
  }

  predicate AdmitsLasting(rs: seq<Reservation>, e: Event) {
    Admitting(rs, e) && !e.action.q.IsShort()
  }

  predicate Merging(rs: seq<Reservation>, e: Event) {
    e.action.Move? && Merges(LivingOf(rs, e), e.action.key, e.action.toPid)
  }

  predicate FixedCapacity(events: seq<Event>, capacityMb: real) {
    forall i :: 0 <= i < |events| ==> events[i].machine.capacityMb == Some(capacityMb)
  }

  // --- Every entry after a step --------------------------------------------------------

  /** An entry after a step: kept from before, newly written, or changed by a handover. */
  lemma EntryAfterTry(rs: seq<Reservation>, machine: Machine, q: Request, r: Reservation)
    requires r in AfterTry(rs, machine, q)
    ensures var others := Others(rs, machine, q);
            || r in others
            || (Admits(others, machine, q) && r == HoldingEntry(machine, q))
            || (q.since.Some? && r == WaitingEntry(others, machine, q, q.since.value))
    ensures forall o :: o in Others(rs, machine, q) ==> o in rs
  {
  }

  lemma EntryAfterMove(living: seq<Reservation>, key: Key, pid: int, processes: Processes, r: Reservation)
    requires r in AfterMove(living, key, pid, processes)
    ensures || r in living
            || (exists o :: o in living && r == HandedOver(o, pid, processes))
            || (exists o, m: Mb :: o in living && r == Merged(o, m))
  {
    var mine, theirs := IndexOfKey(living, key), IndexOfPid(living, pid);
    if mine.Some? && theirs.None? {
      assert living[mine.value] in living;
    } else if mine.Some? && theirs.value != mine.value {
      assert living[theirs.value] in living;
    }
  }

  // --- Capacity ------------------------------------------------------------------------

  /** The reservations fit the capacity together, or at most one of them holds memory. */
  ghost predicate Safe(rs: seq<Reservation>, capacityMb: real) {
    Held(rs, All) <= capacityMb || Holders(rs) <= 1
  }

  lemma MoveHoldsAtMost(living: seq<Reservation>, key: Key, pid: int, processes: Processes)
    ensures Held(AfterMove(living, key, pid, processes), All) <= Held(living, All)
    ensures Holders(AfterMove(living, key, pid, processes)) <= Holders(living)
  {
    var mine, theirs := IndexOfKey(living, key), IndexOfPid(living, pid);
    if mine.Some? {
      var i := mine.value;
      if theirs.None? {
        var r := HandedOver(living[i], pid, processes);
        HeldUpdated(living, i, r, All);
        HoldersWithout(living, i);
        HoldersWithout(living[i := r], i);
        assert Without(living[i := r], i) == Without(living, i);
      } else if theirs.value == i {
        HeldWithout(living, i, All);
        HoldersWithout(living, i);
      } else {
        var j := theirs.value;
        var r := Merged(living[j], living[i].megabytes);
        HeldUpdated(living, j, r, All);
        HeldWithout(living[j := r], i, All);
        HoldersWithout(living, j);
        HoldersWithout(living[j := r], j);
        assert Without(living[j := r], j) == Without(living, j);
        HoldersWithout(living[j := r], i);
      }
    }
  }

  lemma TrySafe(rs: seq<Reservation>, machine: Machine, q: Request, capacityMb: real)
    requires Safe(rs, capacityMb) && machine.capacityMb == Some(capacityMb)
    ensures Safe(AfterTry(rs, machine, q), capacityMb)
  {
    var living := Kept(rs, Living(machine.processes));
    var others := Others(rs, machine, q);
    KeptHoldsAtMost(rs, Living(machine.processes), All);
    KeptHoldsAtMost(living, NotWaiting(q.pid, q.name, q.since), All);
    if Admits(others, machine, q) {
      HeldWithOneMore(others, HoldingEntry(machine, q), All);
      HoldersOfConcat(others, [HoldingEntry(machine, q)]);
      NoHolders(others);
    } else if q.since.Some? {
      HeldWithOneMore(others, WaitingEntry(others, machine, q, q.since.value), All);
      HoldersOfConcat(others, [WaitingEntry(others, machine, q, q.since.value)]);
    }
  }

  /** Every step keeps the ledger safe: an admission fits the capacity or goes alone, a merge keeps at
      most what the two held. */
  lemma NextSafe(rs: seq<Reservation>, e: Event, capacityMb: real)
    requires Safe(rs, capacityMb) && e.machine.capacityMb == Some(capacityMb)
    ensures Safe(Next(rs, e), capacityMb)
  {
    KeptHoldsAtMost(rs, Living(e.machine.processes), All);
    var living := LivingOf(rs, e);
    match e.action
    case Try(q) => TrySafe(rs, e.machine, q, capacityMb);
    case Withdraw(pid, name, since) => KeptHoldsAtMost(living, NotWaiting(pid, name, Some(since)), All);
    case Move(key, pid) => MoveHoldsAtMost(living, key, pid, e.machine.processes);
    case Release(key) => KeptHoldsAtMost(living, NotKey(key), All);
    case Look =>
  }

  /** Capacity safety of every reachable state. */
  lemma {:induction false} CapacitySafety(rs: seq<Reservation>, events: seq<Event>, capacityMb: real)
    requires Safe(rs, capacityMb) && FixedCapacity(events, capacityMb)
    ensures Safe(After(rs, events), capacityMb)
    decreases |events|
  {
    if events != [] {
      NextSafe(rs, events[0], capacityMb);
      CapacitySafety(Next(rs, events[0]), events[1..], capacityMb);
    }
  }

  // --- Handing over --------------------------------------------------------------------

  /** Handing over without a merge changes what no group holds. */
  lemma HandingOverHoldsSame(living: seq<Reservation>, key: Key, pid: int, processes: Processes, share: Share)
    requires !Merges(living, key, pid)
    ensures Held(AfterMove(living, key, pid, processes), share) == Held(living, share)
  {
    var mine := IndexOfKey(living, key);
    if mine.Some? {
      HeldUpdated(living, mine.value, HandedOver(living[mine.value], pid, processes), share);
    }
  }

  /** Groups of lasting reservations only. */
  predicate IsLasting(share: Share) {
    share.Lasting? || share.LastingSince? || share.LastingAfter? || share.LastingAbove? || share.LastingUpTo?
  }

  /** A step without a lasting admission or a merge adds nothing to a group of lasting reservations. */
  lemma NextAddsNothing(rs: seq<Reservation>, e: Event, share: Share)
    requires IsLasting(share) && !AdmitsLasting(rs, e) && !Merging(rs, e)
    ensures Held(Next(rs, e), share) <= Held(rs, share)
  {
    var living := LivingOf(rs, e);
    KeptHoldsAtMost(rs, Living(e.machine.processes), share);
    match e.action
    case Try(q) =>
      var others := Others(rs, e.machine, q);
      KeptHoldsAtMost(living, NotWaiting(q.pid, q.name, q.since), share);
      if Admits(others, e.machine, q) {
        HeldWithOneMore(others, HoldingEntry(e.machine, q), share);
      } else if q.since.Some? {
        HeldWithOneMore(others, WaitingEntry(others, e.machine, q, q.since.value), share);
      }
    case Withdraw(pid, name, since) => KeptHoldsAtMost(living, NotWaiting(pid, name, Some(since)), share);
    case Move(key, pid) => HandingOverHoldsSame(living, key, pid, e.machine.processes, share);
    case Release(key) => KeptHoldsAtMost(living, NotKey(key), share);
    case Look =>
  }

  /** The process has a reservation of at least `granted`, with as much on its grant. */
  predicate HoldsGrant(rs: seq<Reservation>, pid: int, granted: Mb) {
    exists r ::
      r in rs && r.pid == pid && r.megabytes >= granted && r.grantedMb.Some? && r.grantedMb.value >= granted
  }

  /** After a hand-over the process holds what was granted if and only if the reservation was not its first entry
      already, or another of its entries holds as much: a reservation that is its first entry is removed. */
  lemma MoveKeepsGrant(living: seq<Reservation>, key: Key, pid: int, processes: Processes)
    requires IndexOfKey(living, key).Some?
    ensures var mine, theirs := IndexOfKey(living, key).value, IndexOfPid(living, pid);
            var after, granted := AfterMove(living, key, pid, processes), living[mine].megabytes;
            && (HoldsGrant(after, pid, granted) <==>
                  theirs != Some(mine) || HoldsGrant(Without(living, mine), pid, granted))
            && (theirs == Some(mine) ==>
                  after == Without(living, mine) && Held(after, All) == Held(living, All) - granted)
  {
    var mine, theirs := IndexOfKey(living, key).value, IndexOfPid(living, pid);
    var after := AfterMove(living, key, pid, processes);
    if theirs.None? {
      assert after[mine] in after;
    } else if theirs.value == mine {
      HeldWithout(living, mine, All);
    } else {
      var j := theirs.value;
      var r := Merged(living[j], living[mine].megabytes);
      assert after[if j < mine then j else j - 1] == r;
    }
  }

  /** The process `pid` of `processes` still runs: the same one, by its start where that is known, and no zombie. */
  predicate StillRuns(pid: int, processes: Processes, later: Processes) {
    && pid in later && !later[pid].zombie
    && (pid in processes ==> later[pid].ticks == processes[pid].ticks)
  }

  /** An update keeps the entry exactly while the process `pid` of `processes` still runs. */
  ghost predicate LivesWith(r: Reservation, pid: int, processes: Processes) {
    forall rs: seq<Reservation>, later: Processes ::
      r in rs ==> (r in Kept(rs, Living(later)) <==> StillRuns(pid, processes, later))
  }

  lemma EntryLivesWith(r: Reservation, processes: Processes)
    requires r.startTicks == StartTicks(r.pid, processes)
    ensures LivesWith(r, r.pid, processes)
  {
  }

  /** A reservation handed to a process without one goes on under that process's pid with all it held, and from then on
      lives exactly as long as that process; no other entry changes. */
  lemma MovedLivesWithProcess(living: seq<Reservation>, key: Key, pid: int, processes: Processes)
    requires IndexOfKey(living, key).Some? && IndexOfPid(living, pid).None?
    ensures var mine := IndexOfKey(living, key).value;
            var after := AfterMove(living, key, pid, processes);
            && |after| == |living| && after[mine].pid == pid && LivesWith(after[mine], pid, processes)
            && after[mine].megabytes == living[mine].megabytes && after[mine].grantedMb == Some(living[mine].megabytes)
            && after[mine].HeldSince() == living[mine].HeldSince() && after[mine].isShort == living[mine].isShort
            && after[mine].expectedEnd == living[mine].expectedEnd
            && forall i :: 0 <= i < |living| && i != mine ==> after[i] == living[i]
  {
    EntryLivesWith(AfterMove(living, key, pid, processes)[IndexOfKey(living, key).value], processes);
  }

  /** One merged into the process's first entry leaves that with the larger of the two and of the grants, so that the
      reserved megabytes fall by the smaller; it lives as before, and no other entry changes. */
  lemma MergedKeepsLarger(living: seq<Reservation>, key: Key, pid: int, processes: Processes)
    requires Merges(living, key, pid) && IndexOfKey(living, key) != IndexOfPid(living, pid)
    ensures var mine, theirs := IndexOfKey(living, key).value, IndexOfPid(living, pid).value;
            var after, granted := AfterMove(living, key, pid, processes), living[mine].megabytes;
            && |after| == |living| - 1
            && IsMergedFrom(after[if theirs < mine then theirs else theirs - 1], living[theirs], granted)
            && (forall i :: 0 <= i < |living| && i != mine && i != theirs ==>
                  after[if i < mine then i else i - 1] == living[i])
            && Held(after, All)
               == Held(living, All)
                  - (if granted <= living[theirs].megabytes then granted else living[theirs].megabytes)
  {
    var mine, theirs := IndexOfKey(living, key).value, IndexOfPid(living, pid).value;
    MergedHold(living, mine, theirs);
    UpdatedWithout(living, mine, theirs, Merged(living[theirs], living[mine].megabytes));
  }

  lemma UpdatedWithout(rs: seq<Reservation>, i: nat, j: nat, r: Reservation)
    requires i < |rs| && j < |rs| && i != j
    ensures var after := Without(rs[j := r], i);
            && |after| == |rs| - 1 && after[if j < i then j else j - 1] == r
            && forall k :: 0 <= k < |rs| && k != i && k != j ==> after[if k < i then k else k - 1] == rs[k]
  {
  }

  /** The entry lives and is found as `theirs` is, with the larger megabytes and the larger grant. */
  predicate IsMergedFrom(r: Reservation, theirs: Reservation, granted: Mb) {
    && r.KeyOf() == theirs.KeyOf() && r.startTicks == theirs.startTicks && r.HeldSince() == theirs.HeldSince()
    && r.isShort == theirs.isShort && r.expectedEnd == theirs.expectedEnd
    && r.megabytes == (if granted <= theirs.megabytes then theirs.megabytes else granted)
    && r.grantedMb == Some(if granted <= theirs.grantedMb.Or(0.0) then theirs.grantedMb.Or(0.0) else granted)
  }

  lemma MergedHold(living: seq<Reservation>, mine: nat, theirs: nat)
    requires mine < |living| && theirs < |living| && mine != theirs
    ensures var r := Merged(living[theirs], living[mine].megabytes);
            Held(Without(living[theirs := r], mine), All)
            == Held(living, All) + r.megabytes - living[theirs].megabytes - living[mine].megabytes
  {
    var r := Merged(living[theirs], living[mine].megabytes);
    HeldUpdated(living, theirs, r, All);
    HeldWithout(living[theirs := r], mine, All);
  }

  // --- Time ----------------------------------------------------------------------------

  /** Every entry began holding by `time`, and a waiting one no later than its wait. */
  ghost predicate Timed(rs: seq<Reservation>, time: real) {
    forall r :: r in rs ==> r.HeldSince() <= time && (r.Waits() ==> r.HeldSince() <= r.WaitingSince())
  }

  predicate TimedEvent(e: Event, time: real) {
    e.machine.now >= time && (e.action.Try? && e.action.q.since.Some? ==> e.action.q.since.value <= e.machine.now)
  }

  /** A monotone clock: no step before the last, no wait begun after its try. */
  predicate TimedRun(events: seq<Event>, time: real) {
    events != [] ==> TimedEvent(events[0], time) && TimedRun(events[1..], events[0].machine.now)
  }

  lemma NextTimed(rs: seq<Reservation>, e: Event, time: real)
    requires Timed(rs, time) && TimedEvent(e, time)
    ensures Timed(Next(rs, e), e.machine.now)
  {
    forall r | r in Next(rs, e)
      ensures r.HeldSince() <= e.machine.now && (r.Waits() ==> r.HeldSince() <= r.WaitingSince())
    {
      match e.action
      case Try(q) => EntryAfterTry(rs, e.machine, q, r);
      case Move(key, pid) => EntryAfterMove(LivingOf(rs, e), key, pid, e.machine.processes, r);
      case _ =>
    }
  }
}
