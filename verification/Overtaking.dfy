/** Bounded overtaking: who can be admitted before a given place in the queue. */
module Overtaking {
  import opened Options
  import opened Reservations
  import opened Admission
  import opened Runs

  /** How many waiters come before `place`. */
  function Ahead(rs: seq<Reservation>, place: Place): nat {
    if rs == [] then 0 else (if IsAhead(rs[0], place) then 1 else 0) + Ahead(rs[1..], place)
  }

  lemma {:induction false} AheadOfConcat(a: seq<Reservation>, b: seq<Reservation>, place: Place)
    ensures Ahead(a + b, place) == Ahead(a, place) + Ahead(b, place)
  {
    if a == [] {
      assert a + b == b;
    } else {
      assert (a + b)[1..] == a[1..] + b;
      AheadOfConcat(a[1..], b, place);
    }
  }

  lemma AheadWithout(rs: seq<Reservation>, i: nat, place: Place)
    requires i < |rs|
    ensures Ahead(rs, place) == Ahead(Without(rs, i), place) + (if IsAhead(rs[i], place) then 1 else 0)
  {
    assert rs == rs[..i] + ([rs[i]] + rs[i + 1..]);
    AheadOfConcat(rs[..i], [rs[i]] + rs[i + 1..], place);
    AheadOfConcat([rs[i]], rs[i + 1..], place);
    AheadOfConcat(rs[..i], rs[i + 1..], place);
  }

  lemma AheadUpdated(rs: seq<Reservation>, i: nat, r: Reservation, place: Place)
    requires i < |rs|
    ensures Ahead(rs[i := r], place) == Ahead(rs, place) - Count(IsAhead(rs[i], place)) + Count(IsAhead(r, place))
  {
    AheadWithout(rs, i, place);
    AheadWithout(rs[i := r], i, place);
    assert Without(rs[i := r], i) == Without(rs, i);
  }

  lemma {:induction false} AheadKept(rs: seq<Reservation>, test: Test, place: Place)
    ensures Ahead(Kept(rs, test), place) <= Ahead(rs, place)
    ensures (exists r :: r in rs && IsAhead(r, place) && !Passes(r, test)) ==>
              Ahead(Kept(rs, test), place) < Ahead(rs, place)
  {
    if rs != [] {
      AheadKept(rs[1..], test, place);
      AheadOfConcat([rs[0]], Kept(rs[1..], test), place);
      if exists r :: r in rs && IsAhead(r, place) && !Passes(r, test) {
        var r :| r in rs && IsAhead(r, place) && !Passes(r, test);
        assert r == rs[0] || r in rs[1..];
      }
    }
  }

  /** An admission of a request that comes before `place`. */
  predicate Overtakes(rs: seq<Reservation>, e: Event, place: Place) {
    Admitting(rs, e) && Before(e.action.q.PlaceAt(e.machine.now), place)
  }

  /** A request before `place` that has no waiting entry there yet tries, or a waiting entry changes its pid. */
  predicate Arrives(rs: seq<Reservation>, e: Event, place: Place) {
    match e.action
    case Try(q) =>
      && Before(q.PlaceAt(e.machine.now), place)
      && forall r :: r in LivingOf(rs, e) && IsWaitingEntry(r, q.pid, q.name, q.since) ==>
           r.PlaceOf() != q.PlaceAt(e.machine.now)
    case Move(key, _) =>
      var mine := IndexOfKey(LivingOf(rs, e), key);
      mine.Some? && LivingOf(rs, e)[mine.value].Waits()
    case _ => false
  }

  function Count(b: bool): nat { if b then 1 else 0 }

  lemma TryAhead(rs: seq<Reservation>, e: Event, q: Request, place: Place)
    requires e.action == Try(q)
    ensures Count(Overtakes(rs, e, place)) + Ahead(Next(rs, e), place)
            <= Ahead(rs, place) + Count(Arrives(rs, e, place))
  {
    var living := LivingOf(rs, e);
    var others := Others(rs, e.machine, q);
    AheadKept(rs, Living(e.machine.processes), place);
    AheadKept(living, NotWaiting(q.pid, q.name, q.since), place);
    if Admits(others, e.machine, q) {
      AheadOfConcat(others, [HoldingEntry(e.machine, q)], place);
    } else if q.since.Some? {
      AheadOfConcat(others, [WaitingEntry(others, e.machine, q, q.since.value)], place);
    }
  }

  lemma MoveAhead(living: seq<Reservation>, key: Key, pid: int, processes: Processes, place: Place)
    ensures var mine := IndexOfKey(living, key);
            Ahead(AfterMove(living, key, pid, processes), place)
            <= Ahead(living, place) + Count(mine.Some? && living[mine.value].Waits())
  {
    var mine, theirs := IndexOfKey(living, key), IndexOfPid(living, pid);
    if mine.Some? {
      if theirs.None? {
        AheadUpdated(living, mine.value, HandedOver(living[mine.value], pid, processes), place);
      } else if theirs.value == mine.value {
        AheadWithout(living, mine.value, place);
      } else {
        var r := Merged(living[theirs.value], living[mine.value].megabytes);
        AheadUpdated(living, theirs.value, r, place);
        AheadWithout(living[theirs.value := r], mine.value, place);
      }
    }
  }

  /** One step: the waiters ahead of `place` grow only by an arrival there, and an admission ahead of
      `place` takes one of them away, or is an arrival itself. */
  lemma NextAhead(rs: seq<Reservation>, e: Event, place: Place)
    ensures Count(Overtakes(rs, e, place)) + Ahead(Next(rs, e), place)
            <= Ahead(rs, place) + Count(Arrives(rs, e, place))
  {
    var living := LivingOf(rs, e);
    AheadKept(rs, Living(e.machine.processes), place);
    match e.action
    case Try(q) => TryAhead(rs, e, q, place);
    case Withdraw(pid, name, since) => AheadKept(living, NotWaiting(pid, name, Some(since)), place);
    case Move(key, pid) => MoveAhead(living, key, pid, e.machine.processes, place);
    case Release(key) => AheadKept(living, NotKey(key), place);
    case Look =>
  }

  function Overtakings(rs: seq<Reservation>, events: seq<Event>, place: Place): nat
    decreases |events|
  {
    if events == [] then 0
    else Count(Overtakes(rs, events[0], place)) + Overtakings(Next(rs, events[0]), events[1..], place)
  }

  function Arrivals(rs: seq<Reservation>, events: seq<Event>, place: Place): nat
    decreases |events|
  {
    if events == [] then 0
    else Count(Arrives(rs, events[0], place)) + Arrivals(Next(rs, events[0]), events[1..], place)
  }

  /** Over any run, the admissions ahead of `place` and the waiters still ahead of it at the end number at
      most the waiters ahead of it at the start and the arrivals there since. */
  lemma {:induction false} OvertakingIsBounded(rs: seq<Reservation>, events: seq<Event>, place: Place)
    ensures Overtakings(rs, events, place) + Ahead(After(rs, events), place)
            <= Ahead(rs, place) + Arrivals(rs, events, place)
    decreases |events|
  {
    if events != [] {
      NextAhead(rs, events[0], place);
      OvertakingIsBounded(Next(rs, events[0]), events[1..], place);
    }
  }

  // --- Who can arrive ahead -------------------------------------------------------------

  predicate BeginsLater(q: Request, now: real, place: Place) { q.since.Or(now) > place.since }

  /** A request whose wait began later comes before a waiter exactly when it is the nightly's and the waiter is not, one
      whose wait began earlier but when the waiter alone is the nightly's; of one time the lower pid comes first, of
      one urgency. */
  lemma OnlyNightlyComesBefore(q: Request, now: real, r: Reservation)
    ensures var before := Before(q.PlaceAt(now), r.PlaceOf());
            && (BeginsLater(q, now, r.PlaceOf()) ==> (before <==> q.nightly && !r.nightly))
            && (q.since.Or(now) < r.WaitingSince() ==> (before <==> q.nightly || !r.nightly))
            && (q.since.Or(now) == r.WaitingSince() ==>
                  (before <==> (q.nightly && !r.nightly) || (q.nightly == r.nightly && q.pid < r.pid)))
  {
  }

  /** The request tries again from its waiting entry. */
  predicate TriesAgain(rs: seq<Reservation>, e: Event)
    requires e.action.Try?
  {
    var q := e.action.q;
    exists r :: r in LivingOf(rs, e) && IsWaitingEntry(r, q.pid, q.name, q.since)
      && r.PlaceOf() == q.PlaceAt(e.machine.now)
  }

  /** A step at which nobody arrives before `place`: the requests tried began later and are no more urgent, or try
      again, and no waiting entry is handed over. */
  predicate IsQuiet(rs: seq<Reservation>, e: Event, place: Place) {
    match e.action
    case Try(q) => (BeginsLater(q, e.machine.now, place) && Rank(q.nightly) >= place.rank) || TriesAgain(rs, e)
    case Move(key, _) =>
      var mine := IndexOfKey(LivingOf(rs, e), key);
      mine.None? || !LivingOf(rs, e)[mine.value].Waits()
    case _ => true
  }

  predicate IsQuietRun(rs: seq<Reservation>, events: seq<Event>, place: Place)
    decreases |events|
  {
    events != [] ==> IsQuiet(rs, events[0], place) && IsQuietRun(Next(rs, events[0]), events[1..], place)
  }

  /** Over such a run nobody arrives, the waiters ahead never grow in number, and as many as are admitted ahead have
      gone from there. */
  lemma {:induction false} QuietRunNeverGrows(rs: seq<Reservation>, events: seq<Event>, place: Place)
    requires IsQuietRun(rs, events, place)
    ensures Arrivals(rs, events, place) == 0
    ensures Ahead(After(rs, events), place) + Overtakings(rs, events, place) <= Ahead(rs, place)
    decreases |events|
  {
    if events != [] {
      NextAhead(rs, events[0], place);
      QuietRunNeverGrows(Next(rs, events[0]), events[1..], place);
    }
  }

  /** The waiters ahead fall in number when one of them withdraws, or is admitted from its waiting entry. */
  lemma LeavingLowersAhead(rs: seq<Reservation>, e: Event, place: Place, r: Reservation)
    requires r in LivingOf(rs, e) && IsAhead(r, place)
    requires match e.action
             case Withdraw(pid, name, since) => IsWaitingEntry(r, pid, name, Some(since))
             case Try(q) => Admitting(rs, e) && IsWaitingEntry(r, q.pid, q.name, q.since)
             case _ => false
    ensures Ahead(Next(rs, e), place) < Ahead(rs, place)
  {
    var living := LivingOf(rs, e);
    AheadKept(rs, Living(e.machine.processes), place);
    match e.action
    case Withdraw(pid, name, since) => AheadKept(living, NotWaiting(pid, name, Some(since)), place);
    case Try(q) =>
      AheadKept(living, NotWaiting(q.pid, q.name, q.since), place);
      AheadOfConcat(Others(rs, e.machine, q), [HoldingEntry(e.machine, q)], place);
    case _ =>
  }
}
