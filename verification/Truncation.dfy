/** Sidecars cut to their newest rows: when a refresh from them writes what a refresh from the whole ones does. */
module Truncation {
  import opened Options
  import opened Newest
  import opened Estimates

  // --- Truncated sidecars -----------------------------------------------------------------------------

  /** The same source has the same date and, at a spot, the same row wherever it stands. */
  ghost predicate Agree(bases: seq<Sidecar>) {
    && (forall i, j, s :: 0 <= i < |bases| && 0 <= j < |bases| && s in bases[i].dates && s in bases[j].dates
          ==> bases[i].dates[s] == bases[j].dates[s])
    && (forall i, j, spot, p, q ::
          0 <= i < |bases| && 0 <= j < |bases| && 0 <= p < |RowsAt(bases[i], spot)| && 0 <= q < |RowsAt(bases[j], spot)|
          && RowsAt(bases[i], spot)[p].source == RowsAt(bases[j], spot)[q].source
          ==> RowsAt(bases[i], spot)[p] == RowsAt(bases[j], spot)[q])
  }

  /** The sidecar with the newest rows of `base` alone. */
  function Truncated(window: Width, base: Sidecar): Sidecar { Refreshed(window, [base], []).Or(base) }

  function AllTruncated(window: Width, bases: seq<Sidecar>): (shorter: seq<Sidecar>)
    ensures |shorter| == |bases| && forall i :: 0 <= i < |bases| ==> shorter[i] == Truncated(window, bases[i])
  {
    seq(|bases|, i requires 0 <= i < |bases| => Truncated(window, bases[i]))
  }

  ghost predicate NoneLogged(bases: seq<Sidecar>, logs: seq<Log>) {
    forall i, j :: 0 <= i < |bases| && 0 <= j < |logs| ==> logs[j].source !in bases[i].dates
  }

  /** Two spots' rows, or two sources' dates, are the same at `s`. */
  ghost predicate SameAt<T>(m: map<string, T>, m': map<string, T>, s: string) {
    (s in m <==> s in m') && (s in m && s in m' ==> m[s] == m'[s])
  }

  /** What a truncated sidecar holds of its base. */
  lemma TruncatedHolds(window: Width, base: Sidecar, spot: Spot)
    requires WellWritten(base)
    ensures var t := Truncated(window, base);
            && RowsAt(t, spot) == Kept(window, Filed(map[], RowsAt(base, spot)), base.dates)
            && (forall s :: s in t.dates ==> s in base.dates && t.dates[s] == base.dates[s])
            && forall s :: HasRowOf(RowsAt(t, spot), s) ==> s in t.dates
  {
    var found := FoundIn([base], []);
    OneBase(base, spot);
    forall other | other in found ensures found[other].Keys <= base.dates.Keys {
      OneBase(base, other);
      assert found[other] == Known(found, other);
      forall s | s in found[other] ensures s in base.dates {
        FiledHolds(map[], RowsAt(base, other), s);
      }
    }
    WrittenHolds(window, found, base.dates, spot);
  }

  /** A row that some base holds. */
  ghost predicate HeldIn(bases: seq<Sidecar>, spot: Spot, row: Row) {
    exists i :: 0 <= i < |bases| && row in RowsAt(bases[i], spot)
  }

  lemma HeldInMore(bases: seq<Sidecar>, spot: Spot, row: Row)
    requires bases != []
    ensures HeldIn(bases, spot, row)
            <==> HeldIn(bases[..|bases| - 1], spot, row) || row in RowsAt(bases[|bases| - 1], spot)
  {
    var front := bases[..|bases| - 1];
    assert forall i :: 0 <= i < |front| ==> front[i] == bases[i];
    if i :| 0 <= i < |bases| && row in RowsAt(bases[i], spot) {
      assert i < |front| ==> row in RowsAt(front[i], spot);
    }
  }

  /** What is gathered is held, and every source with a row is gathered. */
  lemma {:induction false} GatheredIsHeld(bases: seq<Sidecar>, spot: Spot, s: string)
    ensures s in Gathered(bases, spot) ==> HeldIn(bases, spot, Row(s, Gathered(bases, spot)[s]))
    ensures forall m :: HeldIn(bases, spot, Row(s, m)) ==> s in Gathered(bases, spot)
  {
    if bases != [] {
      var front, rows := bases[..|bases| - 1], RowsAt(bases[|bases| - 1], spot);
      GatheredIsHeld(front, spot, s);
      FiledHolds(Gathered(front, spot), rows, s);
      forall m ensures HeldIn(bases, spot, Row(s, m)) ==> s in Gathered(bases, spot) {
        HeldInMore(bases, spot, Row(s, m));
      }
      if s in Gathered(bases, spot) {
        HeldInMore(bases, spot, Row(s, Gathered(bases, spot)[s]));
      }
    }
  }

  /** Where the bases agree, what is gathered is what any of them holds. */
  lemma GatheredIsAny(bases: seq<Sidecar>, spot: Spot, row: Row)
    requires Agree(bases) && HeldIn(bases, spot, row)
    ensures row.source in Gathered(bases, spot) && Gathered(bases, spot)[row.source] == row.measured
  {
    GatheredIsHeld(bases, spot, row.source);
    var other := Row(row.source, Gathered(bases, spot)[row.source]);
    var i :| 0 <= i < |bases| && row in RowsAt(bases[i], spot);
    var j :| 0 <= j < |bases| && other in RowsAt(bases[j], spot);
    var p :| 0 <= p < |RowsAt(bases[i], spot)| && RowsAt(bases[i], spot)[p] == row;
    var q :| 0 <= q < |RowsAt(bases[j], spot)| && RowsAt(bases[j], spot)[q] == other;
  }

  lemma {:induction false} BaseDatesAt(bases: seq<Sidecar>, s: string)
    ensures s in BaseDates(bases) <==> exists i :: 0 <= i < |bases| && s in bases[i].dates
    ensures s in BaseDates(bases) ==>
              exists i :: 0 <= i < |bases| && s in bases[i].dates && bases[i].dates[s] == BaseDates(bases)[s]
  {
    if bases != [] {
      var front, last := bases[..|bases| - 1], bases[|bases| - 1];
      BaseDatesAt(front, s);
      assert forall i :: 0 <= i < |front| ==> bases[i] == front[i];
      assert last == bases[|bases| - 1];
    }
  }

  ghost predicate Logged(logs: seq<Log>, s: string) { exists j :: 0 <= j < |logs| && logs[j].source == s }

  lemma LoggedMore(logs: seq<Log>, s: string)
    requires logs != []
    ensures Logged(logs, s) <==> Logged(logs[..|logs| - 1], s) || logs[|logs| - 1].source == s
  {
    var front := logs[..|logs| - 1];
    assert forall j :: 0 <= j < |front| ==> logs[j] == front[j];
    assert logs[|logs| - 1].source == s ==> Logged(logs, s);
  }

  /** Logs do not tell bases apart, and change only the rows of their own sources. */
  lemma {:induction false} WithLogsAt(bases: seq<Sidecar>, bases': seq<Sidecar>, logs: seq<Log>, spot: Spot, s: string)
    ensures SameAt(Gathered(bases, spot), Gathered(bases', spot), s)
            ==> SameAt(WithLogs(bases, logs, spot), WithLogs(bases', logs, spot), s)
    ensures !Logged(logs, s) ==> SameAt(WithLogs(bases, logs, spot), Gathered(bases, spot), s)
  {
    if logs != [] {
      WithLogsAt(bases, bases', logs[..|logs| - 1], spot, s);
      LoggedMore(logs, s);
    }
  }

  lemma {:induction false} DatesAt(bases: seq<Sidecar>, bases': seq<Sidecar>, logs: seq<Log>, s: string)
    ensures Logged(logs, s) ==>
              s in Dates(bases, logs) && s in Dates(bases', logs) && Dates(bases, logs)[s] == Dates(bases', logs)[s]
    ensures !Logged(logs, s) ==> SameAt(Dates(bases, logs), BaseDates(bases), s)
  {
    if logs != [] {
      DatesAt(bases, bases', logs[..|logs| - 1], s);
      LoggedMore(logs, s);
    }
  }

  ghost predicate AllWellWritten(bases: seq<Sidecar>) { forall i :: 0 <= i < |bases| ==> WellWritten(bases[i]) }

  /** A row of a truncated sidecar is one of its base. */
  lemma TruncatedRow(window: Width, base: Sidecar, spot: Spot, row: Row)
    requires WellWritten(base) && row in RowsAt(Truncated(window, base), spot)
    ensures row in RowsAt(base, spot) && row.source in Truncated(window, base).dates
  {
    TruncatedHolds(window, base, spot);
    FiledHolds(map[], RowsAt(base, spot), row.source);
    assert HasRowOf(RowsAt(Truncated(window, base), spot), row.source);
  }

  /** What is gathered from the truncated sidecars is gathered from the bases. */
  lemma GatheredFromTruncated(window: Width, bases: seq<Sidecar>, spot: Spot, s: string)
    requires Agree(bases) && AllWellWritten(bases) && s in Gathered(AllTruncated(window, bases), spot)
    ensures s in Gathered(bases, spot) && Gathered(bases, spot)[s] == Gathered(AllTruncated(window, bases), spot)[s]
    ensures s in BaseDates(AllTruncated(window, bases))
  {
    var ts := AllTruncated(window, bases);
    GatheredIsHeld(ts, spot, s);
    var row := Row(s, Gathered(ts, spot)[s]);
    var i :| 0 <= i < |ts| && row in RowsAt(ts[i], spot);
    TruncatedRow(window, bases[i], spot, row);
    GatheredIsAny(bases, spot, row);
    BaseDatesAt(ts, s);
  }

  lemma BaseDateIsAny(bases: seq<Sidecar>, i: nat, s: string)
    requires Agree(bases) && i < |bases| && s in bases[i].dates
    ensures s in BaseDates(bases) && BaseDates(bases)[s] == bases[i].dates[s]
  {
    BaseDatesAt(bases, s);
  }

  /** The dates of the truncated sidecars are those of the bases. */
  lemma DatesOfTruncated(window: Width, bases: seq<Sidecar>, s: string)
    requires Agree(bases) && AllWellWritten(bases) && s in BaseDates(AllTruncated(window, bases))
    ensures s in BaseDates(bases) && BaseDates(bases)[s] == BaseDates(AllTruncated(window, bases))[s]
  {
    var ts := AllTruncated(window, bases);
    BaseDatesAt(ts, s);
    var i :| 0 <= i < |ts| && s in ts[i].dates && ts[i].dates[s] == BaseDates(ts)[s];
    TruncatedHolds(window, bases[i], Spot("", Layout));
    BaseDateIsAny(bases, i, s);
  }

  /** What is gathered has a date. */
  lemma GatheredIsDated(bases: seq<Sidecar>, spot: Spot, s: string)
    requires AllWellWritten(bases) && s in Gathered(bases, spot)
    ensures exists i :: 0 <= i < |bases| && HasRowOf(RowsAt(bases[i], spot), s) && s in bases[i].dates
    ensures s in BaseDates(bases)
  {
    GatheredIsHeld(bases, spot, s);
    var row := Row(s, Gathered(bases, spot)[s]);
    var i :| 0 <= i < |bases| && row in RowsAt(bases[i], spot);
    assert HasRowOf(RowsAt(bases[i], spot), s);
    assert s in bases[i].dates;
    BaseDatesAt(bases, s);
  }

  /** A row left out of a truncated sidecar has a window of newer ones in it. */
  lemma LeftOutOfTruncated(window: Width, bases: seq<Sidecar>, spot: Spot, y: string)
    returns (newest: set<string>, i: nat)
    requires Agree(bases) && AllWellWritten(bases)
    requires y in Gathered(bases, spot) && y !in Gathered(AllTruncated(window, bases), spot)
    ensures i < |bases| && y in bases[i].dates && |newest| >= window
    ensures forall z :: z in newest ==>
              z in Gathered(AllTruncated(window, bases), spot) && z in bases[i].dates && ByDate(bases[i].dates)(z, y)
  {
    var ts := AllTruncated(window, bases);
    GatheredIsDated(bases, spot, y);
    i :| 0 <= i < |bases| && HasRowOf(RowsAt(bases[i], spot), y) && y in bases[i].dates;
    var found, dates := Filed(map[], RowsAt(bases[i], spot)), bases[i].dates;
    FiledHolds(map[], RowsAt(bases[i], spot), y);
    TruncatedHolds(window, bases[i], spot);
    forall z | z in TopOf(window, found, dates) ensures z in Gathered(ts, spot) && z in dates {
      KeptHasTop(window, found, dates, z);
      RowIsGathered(ts, spot, i, z);
    }
    ByDateIsOrder(dates);
    LeftOutIsOld(found.Keys, window, ByDate(dates), y);
    newest := NewerIn(TopOf(window, found, dates), y, ByDate(dates));
  }

  lemma RowIsGathered(bases: seq<Sidecar>, spot: Spot, i: nat, s: string)
    requires i < |bases| && HasRowOf(RowsAt(bases[i], spot), s)
    ensures s in Gathered(bases, spot)
  {
    GatheredIsHeld(bases, spot, s);
    var p :| 0 <= p < |RowsAt(bases[i], spot)| && RowsAt(bases[i], spot)[p].source == s;
    var row := RowsAt(bases[i], spot)[p];
    assert HeldIn(bases, spot, Row(s, row.measured));
  }

  /** One only found with the bases has a window of newer ones. */
  lemma OnlyWithBases(window: Width, bases: seq<Sidecar>, logs: seq<Log>, spot: Spot, y: string)
    requires Agree(bases) && AllWellWritten(bases) && NoneLogged(bases, logs)
    requires y in WithLogs(bases, logs, spot) && y !in WithLogs(AllTruncated(window, bases), logs, spot)
    ensures y in Dates(bases, logs)
    ensures |NewerIn(WithLogs(AllTruncated(window, bases), logs, spot).Keys, y, ByDate(Dates(bases, logs)))| >= window
  {
    var ts := AllTruncated(window, bases);
    LoggedApart(window, bases, logs, spot, y);
    var newest, i := LeftOutOfTruncated(window, bases, spot, y);
    BaseDatesKept(bases, logs, i, y);
    forall z | z in newest
      ensures z in NewerIn(WithLogs(ts, logs, spot).Keys, y, ByDate(Dates(bases, logs))) {
      BaseDatesKept(bases, logs, i, z);
      LoggedApart(window, bases, logs, spot, z);
    }
    Larger(newest, NewerIn(WithLogs(ts, logs, spot).Keys, y, ByDate(Dates(bases, logs))));
  }

  lemma BaseDatesKept(bases: seq<Sidecar>, logs: seq<Log>, i: nat, s: string)
    requires Agree(bases) && NoneLogged(bases, logs) && i < |bases| && s in bases[i].dates
    ensures s in Dates(bases, logs) && Dates(bases, logs)[s] == bases[i].dates[s]
  {
    DatesAt(bases, bases, logs, s);
    BaseDateIsAny(bases, i, s);
  }

  lemma KeptNothing(window: Width, found: Found, dates: map<string, string>)
    ensures Kept(window, found, dates) == [] <==> found == map[]
  {
    SomeAreNewest(window, found, dates);
    if found != map[] {
      var s :| s in TopOf(window, found, dates);
      KeptHasTop(window, found, dates, s);
    } else if Kept(window, found, dates) != [] {
      KeptHasTop(window, found, dates, Kept(window, found, dates)[0].source);
    }
  }

  lemma KeptsAlike(window: Width, few: map<Spot, Found>, all: map<Spot, Found>, dates': map<string, string>,
                   dates: map<string, string>)
    requires forall spot :: Kept(window, Known(few, spot), dates') == Kept(window, Known(all, spot), dates)
    ensures Kepts(window, few, dates') == Kepts(window, all, dates)
  {
    forall spot ensures spot in Kepts(window, few, dates') <==> spot in Kepts(window, all, dates) {
      KeptNothing(window, Known(few, spot), dates');
      KeptNothing(window, Known(all, spot), dates);
    }
    forall spot | spot in Kepts(window, few, dates') && spot in Kepts(window, all, dates)
      ensures Kepts(window, few, dates')[spot] == Kepts(window, all, dates)[spot] {
      assert few[spot] == Known(few, spot) && all[spot] == Known(all, spot);
    }
  }

  lemma UsedAlike(rows: map<Spot, seq<Row>>, dates: map<string, string>, dates': map<string, string>)
    requires forall spot, s :: spot in rows && HasRowOf(rows[spot], s) ==> SameAt(dates', dates, s)
    ensures UsedDates(rows, dates') == UsedDates(rows, dates)
  {
    forall s: string ensures SameAt(UsedDates(rows, dates'), UsedDates(rows, dates), s) {
      if spot :| spot in rows && HasRowOf(rows[spot], s) {
        assert SameAt(dates', dates, s);
      }
    }
    assert forall s :: s in UsedDates(rows, dates') ==> SameAt(UsedDates(rows, dates'), UsedDates(rows, dates), s);
    assert forall s :: s in UsedDates(rows, dates) ==> SameAt(UsedDates(rows, dates'), UsedDates(rows, dates), s);
  }

  lemma DatedAlike(window: Width, found: map<Spot, Found>, dates: map<string, string>)
    requires forall spot :: Known(found, spot).Keys <= dates.Keys
    ensures Write(window, found, dates)
            == Some(Sidecar(UsedDates(Kepts(window, found, dates), dates), Kepts(window, found, dates)))
  {
    forall spot | spot in found ensures found[spot].Keys <= dates.Keys {
      assert found[spot] == Known(found, spot);
    }
  }

  /** Tables whose newest rows are the same, and dated alike, are written alike. */
  lemma KeptAlikeWrittenAlike(window: Width, few: map<Spot, Found>, all: map<Spot, Found>, dates': map<string, string>,
                              dates: map<string, string>)
    requires forall spot :: Kept(window, Known(few, spot), dates') == Kept(window, Known(all, spot), dates)
    requires forall spot, s :: s in Known(few, spot) ==> SameAt(dates', dates, s) && s in dates
    requires forall spot :: Known(all, spot).Keys <= dates.Keys
    ensures Write(window, few, dates') == Write(window, all, dates) && Write(window, all, dates).Some?
  {
    KeptsAlike(window, few, all, dates', dates);
    var rows := Kepts(window, few, dates');
    forall spot, s | spot in rows && HasRowOf(rows[spot], s) ensures SameAt(dates', dates, s) {
      assert few[spot] == Known(few, spot);
      KeptHasTop(window, Known(few, spot), dates', s);
    }
    UsedAlike(rows, dates, dates');
    forall spot, s | s in Known(few, spot) ensures s in dates' {
      assert SameAt(dates', dates, s);
    }
    DatedAlike(window, few, dates');
    DatedAlike(window, all, dates);
  }

  lemma FoundAt(bases: seq<Sidecar>, logs: seq<Log>, spot: Spot)
    ensures Known(FoundIn(bases, logs), spot) == WithLogs(bases, logs, spot)
  {
    if spot !in Spots(bases, logs) {
      NothingElsewhere(bases, logs, spot);
    }
  }

  /** A source that is not logged stands with the logs as it did in the bases; one that is has no row there. */
  lemma LoggedApart(window: Width, bases: seq<Sidecar>, logs: seq<Log>, spot: Spot, s: string)
    requires Agree(bases) && AllWellWritten(bases) && NoneLogged(bases, logs)
    ensures var ts := AllTruncated(window, bases);
            && (Logged(logs, s) ==> s !in Gathered(bases, spot) && s !in Gathered(ts, spot))
            && (Logged(logs, s) ==> SameAt(WithLogs(ts, logs, spot), WithLogs(bases, logs, spot), s))
            && (!Logged(logs, s) ==> SameAt(WithLogs(bases, logs, spot), Gathered(bases, spot), s))
            && (!Logged(logs, s) ==> SameAt(WithLogs(ts, logs, spot), Gathered(ts, spot), s))
  {
    var ts := AllTruncated(window, bases);
    if Logged(logs, s) {
      if s in Gathered(ts, spot) {
        GatheredFromTruncated(window, bases, spot, s);
      }
      if s in Gathered(bases, spot) {
        GatheredIsDated(bases, spot, s);
      }
    }
    WithLogsAt(ts, bases, logs, spot, s);
    WithLogsAt(bases, ts, logs, spot, s);
  }

  /** A sidecar that was written names a date for each of its rows. */
  lemma WrittenIsWellWritten(window: Width, bases: seq<Sidecar>, logs: seq<Log>)
    requires Refreshed(window, bases, logs).Some?
    ensures WellWritten(Refreshed(window, bases, logs).value)
  {
    forall spot, s | HasRowOf(RowsAt(Refreshed(window, bases, logs).value, spot), s)
      ensures s in Refreshed(window, bases, logs).value.dates {
      WrittenHolds(window, FoundIn(bases, logs), Dates(bases, logs), spot);
    }
  }

  /** Sidecars that name a date for each of their rows can be refreshed. */
  lemma RefreshSucceeds(window: Width, bases: seq<Sidecar>, logs: seq<Log>)
    requires AllWellWritten(bases)
    ensures Refreshed(window, bases, logs).Some?
  {
    var found, dates := FoundIn(bases, logs), Dates(bases, logs);
    forall spot, s | s in Known(found, spot) ensures s in dates {
      FoundAt(bases, logs, spot);
      WithLogsAt(bases, bases, logs, spot, s);
      DatesAt(bases, bases, logs, s);
      if !Logged(logs, s) {
        GatheredIsDated(bases, spot, s);
      }
    }
    DatedAlike(window, found, dates);
  }

  // --- What the logs leave ------------------------------------------------------------------------------

  lemma {:induction false} WithLogsOfPart(part: seq<Sidecar>, bases: seq<Sidecar>, logs: seq<Log>, spot: Spot,
                                          s: string)
    requires s in Gathered(part, spot) ==>
               s in Gathered(bases, spot) && Gathered(part, spot)[s] == Gathered(bases, spot)[s]
    ensures var few, all := WithLogs(part, logs, spot), WithLogs(bases, logs, spot);
            s in few ==> s in all && few[s] == all[s]
  {
    if logs != [] {
      WithLogsOfPart(part, bases, logs[..|logs| - 1], spot, s);
    }
  }

  /** What the truncated sidecars hold of a source at a spot, the bases hold, with the same date. */
  ghost predicate HeldAt(window: Width, bases: seq<Sidecar>, spot: Spot, s: string) {
    var ts := AllTruncated(window, bases);
    s in Gathered(ts, spot) ==>
      && s in Gathered(bases, spot) && Gathered(ts, spot)[s] == Gathered(bases, spot)[s]
      && s in BaseDates(ts) && s in BaseDates(bases) && BaseDates(ts)[s] == BaseDates(bases)[s]
  }

  ghost predicate HeldByBases(window: Width, bases: seq<Sidecar>) { forall spot, s :: HeldAt(window, bases, spot, s) }

  /** Bases that agree hold it all. */
  lemma AgreeingHold(window: Width, bases: seq<Sidecar>)
    requires Agree(bases) && AllWellWritten(bases)
    ensures HeldByBases(window, bases)
  {
    forall spot, s ensures HeldAt(window, bases, spot, s) {
      AgreeingHoldAt(window, bases, spot, s);
    }
  }

  lemma AgreeingHoldAt(window: Width, bases: seq<Sidecar>, spot: Spot, s: string)
    requires Agree(bases) && AllWellWritten(bases)
    ensures HeldAt(window, bases, spot, s)
  {
    if s in Gathered(AllTruncated(window, bases), spot) {
      GatheredFromTruncated(window, bases, spot, s);
      DatesOfTruncated(window, bases, s);
    }
  }

  /** A row found with truncated sidecars is found with their bases, and dated alike. */
  lemma FoundWithTruncated(window: Width, bases: seq<Sidecar>, logs: seq<Log>, spot: Spot, s: string)
    requires HeldByBases(window, bases) && s in WithLogs(AllTruncated(window, bases), logs, spot)
    ensures var ts := AllTruncated(window, bases);
            && s in WithLogs(bases, logs, spot) && WithLogs(bases, logs, spot)[s] == WithLogs(ts, logs, spot)[s]
            && s in Dates(bases, logs) && s in Dates(ts, logs) && Dates(bases, logs)[s] == Dates(ts, logs)[s]
  {
    var ts := AllTruncated(window, bases);
    assert HeldAt(window, bases, spot, s);
    WithLogsOfPart(ts, bases, logs, spot, s);
    WithLogsAt(ts, bases, logs, spot, s);
    DatesAt(bases, ts, logs, s);
    DatesAt(ts, bases, logs, s);
  }

  /** The row of `y` at a spot, which the truncated sidecars have not, is among the newest with the logs. */
  ghost predicate BringsBack(window: Width, bases: seq<Sidecar>, logs: seq<Log>, spot: Spot, y: string) {
    var all := WithLogs(bases, logs, spot);
    && y !in WithLogs(AllTruncated(window, bases), logs, spot)
    && y in TopOf(window, all, Dates(bases, logs))
  }

  lemma SpotLosesNothing(window: Width, bases: seq<Sidecar>, logs: seq<Log>, spot: Spot)
    requires HeldByBases(window, bases) && forall y :: !BringsBack(window, bases, logs, spot, y)
    ensures var ts := AllTruncated(window, bases);
            && Kept(window, WithLogs(ts, logs, spot), Dates(ts, logs))
               == Kept(window, WithLogs(bases, logs, spot), Dates(bases, logs))
            && forall s :: s in WithLogs(ts, logs, spot) ==>
                 SameAt(Dates(ts, logs), Dates(bases, logs), s) && s in Dates(bases, logs)
  {
    var ts := AllTruncated(window, bases);
    var few, all := WithLogs(ts, logs, spot), WithLogs(bases, logs, spot);
    var dates, dates' := Dates(bases, logs), Dates(ts, logs);
    var top := TopOf(window, all, dates);
    ByDateIsOrder(dates);
    forall s | s in few ensures s in all && few[s] == all[s] && s in dates && s in dates' && dates[s] == dates'[s] {
      FoundWithTruncated(window, bases, logs, spot, s);
    }
    forall y | y in top ensures y in few {
      assert !BringsBack(window, bases, logs, spot, y);
    }
    forall y | y in all && y !in few ensures |NewerIn(few.Keys, y, ByDate(dates))| >= window {
      LeftOutIsOld(all.Keys, window, ByDate(dates), y);
      Larger(NewerIn(top, y, ByDate(dates)), NewerIn(few.Keys, y, ByDate(dates)));
    }
    KeptAlike(window, few, all, dates, dates');
  }

  lemma AllDated(window: Width, bases: seq<Sidecar>, logs: seq<Log>, spot: Spot)
    requires AllWellWritten(bases)
    ensures WithLogs(bases, logs, spot).Keys <= Dates(bases, logs).Keys
  {
    forall s | s in WithLogs(bases, logs, spot) ensures s in Dates(bases, logs) {
      WithLogsAt(bases, bases, logs, spot, s);
      DatesAt(bases, bases, logs, s);
      if !Logged(logs, s) {
        GatheredIsDated(bases, spot, s);
      }
    }
  }

  lemma TruncatedAreWellWritten(window: Width, bases: seq<Sidecar>)
    requires AllWellWritten(bases)
    ensures AllWellWritten(AllTruncated(window, bases))
  {
    forall i | 0 <= i < |bases| ensures WellWritten(Truncated(window, bases[i])) {
      TruncatedIsWellWritten(window, bases[i]);
    }
  }

  /** What a refresh writes at a spot. */
  lemma RefreshedAt(window: Width, bases: seq<Sidecar>, logs: seq<Log>, spot: Spot)
    requires AllWellWritten(bases)
    ensures var w := Refreshed(window, bases, logs);
            w.Some? && RowsAt(w.value, spot) == Kept(window, WithLogs(bases, logs, spot), Dates(bases, logs))
  {
    RefreshSucceeds(window, bases, logs);
    FoundAt(bases, logs, spot);
    WrittenHolds(window, FoundIn(bases, logs), Dates(bases, logs), spot);
  }

  /** Refreshing from truncated sidecars writes what refreshing from the whole ones does if and only if the logs
      bring no row back that truncation left out. */
  lemma SameUnlessBroughtBack(window: Width, bases: seq<Sidecar>, logs: seq<Log>)
    requires AllWellWritten(bases) && HeldByBases(window, bases)
    ensures Refreshed(window, AllTruncated(window, bases), logs) == Refreshed(window, bases, logs)
            <==> forall spot, y :: !BringsBack(window, bases, logs, spot, y)
  {
    if forall spot, y :: !BringsBack(window, bases, logs, spot, y) {
      NoneBroughtBack(window, bases, logs);
    }
    if spot, y :| BringsBack(window, bases, logs, spot, y) {
      var ts := AllTruncated(window, bases);
      TruncatedAreWellWritten(window, bases);
      RefreshedAt(window, ts, logs, spot);
      RefreshedAt(window, bases, logs, spot);
      KeptHasTop(window, WithLogs(bases, logs, spot), Dates(bases, logs), y);
      KeptHasTop(window, WithLogs(ts, logs, spot), Dates(ts, logs), y);
    }
  }

  lemma NoneBroughtBack(window: Width, bases: seq<Sidecar>, logs: seq<Log>)
    requires AllWellWritten(bases) && HeldByBases(window, bases)
    requires forall spot, y :: !BringsBack(window, bases, logs, spot, y)
    ensures Refreshed(window, AllTruncated(window, bases), logs) == Refreshed(window, bases, logs)
  {
    var ts := AllTruncated(window, bases);
    var dates, dates' := Dates(bases, logs), Dates(ts, logs);
    var few, all := FoundIn(ts, logs), FoundIn(bases, logs);
    forall spot ensures Kept(window, Known(few, spot), dates') == Kept(window, Known(all, spot), dates)
                ensures Known(all, spot).Keys <= dates.Keys
                ensures forall s :: s in Known(few, spot) ==> SameAt(dates', dates, s) && s in dates {
      FoundAt(ts, logs, spot);
      FoundAt(bases, logs, spot);
      AllDated(window, bases, logs, spot);
      SpotLosesNothing(window, bases, logs, spot);
    }
    KeptAlikeWrittenAlike(window, few, all, dates', dates);
  }

  /** Truncation loses nothing: with logs of new sources, refreshing from truncated sidecars that agree writes what
      refreshing from the whole ones does. */
  lemma TruncationLosesNothing(window: Width, bases: seq<Sidecar>, logs: seq<Log>)
    requires Agree(bases) && AllWellWritten(bases) && NoneLogged(bases, logs)
    ensures Refreshed(window, AllTruncated(window, bases), logs) == Refreshed(window, bases, logs)
    ensures Refreshed(window, bases, logs).Some?
  {
    AgreeingHold(window, bases);
    forall spot, y ensures !BringsBack(window, bases, logs, spot, y) {
      NewSourcesBringNothingBack(window, bases, logs, spot, y);
    }
    SameUnlessBroughtBack(window, bases, logs);
    RefreshSucceeds(window, bases, logs);
  }

  lemma NewSourcesBringNothingBack(window: Width, bases: seq<Sidecar>, logs: seq<Log>, spot: Spot, y: string)
    requires Agree(bases) && AllWellWritten(bases) && NoneLogged(bases, logs)
    ensures !BringsBack(window, bases, logs, spot, y)
  {
    var few, all := WithLogs(AllTruncated(window, bases), logs, spot), WithLogs(bases, logs, spot);
    var newer := ByDate(Dates(bases, logs));
    if y in all && y !in few {
      OnlyWithBases(window, bases, logs, spot, y);
      AgreeingHold(window, bases);
      forall s | s in few ensures s in all {
        FoundWithTruncated(window, bases, logs, spot, s);
      }
      Larger(NewerIn(few.Keys, y, newer), NewerIn(all.Keys, y, newer));
    }
  }

  // --- A source measured again ------------------------------------------------------------------------

  lemma KeptLength(window: Width, found: Found, dates: map<string, string>)
    ensures |Kept(window, found, dates)| == if |found.Keys| <= window then |found.Keys| else window
  {
    ByDateIsOrder(dates);
    Places(found.Keys, ByDate(dates), 0);
  }

  lemma TopIsShort(window: Width, found: Found, dates: map<string, string>)
    ensures |TopOf(window, found, dates)| <= window
  {
    ByDateIsOrder(dates);
    WindowOfTop(found.Keys, window, ByDate(dates));
    Places(TopOf(window, found, dates), ByDate(dates), 0);
  }

  lemma OneBaseOneLog(window: Width, base: Sidecar, log: Log, spot: Spot)
    requires WellWritten(base)
    ensures var w := Refreshed(window, [base], [log]);
            w.Some? && RowsAt(w.value, spot)
              == Kept(window, LogFiled(Filed(map[], RowsAt(base, spot)), log, spot), Dates([base], [log]))
  {
    RefreshSucceeds(window, [base], [log]);
    FoundAt([base], [log], spot);
    WrittenHolds(window, FoundIn([base], [log]), Dates([base], [log]), spot);
    OneBase(base, spot);
    assert [log][..0] == [];
  }

  /** Where a log's source has been measured before, truncation does lose a row: when its kept row is taken out at a
      spot the log does not measure, the row `y` that truncation left out is missing. */
  lemma MeasuredAgainLosesRow(window: Width, base: Sidecar, log: Log, spot: Spot, y: string)
    requires WellWritten(base) && spot.kind == log.kind && spot.board !in log.measured
    requires HasRowOf(RowsAt(Truncated(window, base), spot), log.source)
    requires HasRowOf(RowsAt(base, spot), y) && !HasRowOf(RowsAt(Truncated(window, base), spot), y)
    ensures var whole, short := Refreshed(window, [base], [log]), Refreshed(window, [Truncated(window, base)], [log]);
            whole.Some? && short.Some? && |RowsAt(short.value, spot)| < |RowsAt(whole.value, spot)|
  {
    var t, found := Truncated(window, base), Filed(map[], RowsAt(base, spot));
    TruncatedHolds(window, base, spot);
    TruncatedIsWellWritten(window, base);
    OneBaseOneLog(window, base, log, spot);
    OneBaseOneLog(window, t, log, spot);
    FiledHolds(map[], RowsAt(base, spot), y);
    KeptHasTop(window, found, base.dates, log.source);
    KeptHasTop(window, found, base.dates, y);
    ReadBackLosesRow(window, found, base.dates, log.source, y, Dates([t], [log]), Dates([base], [log]));
  }

  lemma ReadBackLosesRow(window: Width, found: Found, dates: map<string, string>, source: string, y: string,
                         dates': map<string, string>, dates'': map<string, string>)
    requires source in TopOf(window, found, dates) && y in found && y !in TopOf(window, found, dates)
    ensures |Kept(window, Filed(map[], Kept(window, found, dates)) - {source}, dates')|
            < |Kept(window, found - {source}, dates'')|
  {
    var top, back := TopOf(window, found, dates), Filed(map[], Kept(window, found, dates));
    KeptReadsBack(window, found, dates);
    var few, all := back - {source}, found - {source};
    assert few.Keys == top - {source} && all.Keys == found.Keys - {source};
    StrictlyLarger(few.Keys, all.Keys, y);
    TopIsShort(window, found, dates);
    KeptLength(window, few, dates');
    KeptLength(window, all, dates'');
  }

  lemma TruncatedIsWellWritten(window: Width, base: Sidecar)
    requires WellWritten(base)
    ensures WellWritten(Truncated(window, base))
  {
    forall spot, s | HasRowOf(RowsAt(Truncated(window, base), spot), s) ensures s in Truncated(window, base).dates {
      TruncatedHolds(window, base, spot);
    }
  }

  /** A row of the base that truncation left out. */
  predicate LeftOut(window: Width, base: Sidecar, spot: Spot, y: string) {
    HasRowOf(RowsAt(base, spot), y) && !HasRowOf(RowsAt(Truncated(window, base), spot), y)
  }

  /** When a log loses a row at a spot of a truncated sidecar: its source's kept row is taken out, for the log's kind
      without a new one, and a row was left out; or its source's kept row now stands behind a row left out; or, at
      a spot of another kind, its source's row was left out and now stands before one kept. */
  ghost predicate Loses(window: Width, base: Sidecar, log: Log, spot: Spot) {
    var kept, newer := RowsAt(Truncated(window, base), spot), ByDate(base.dates[log.source := log.date]);
    if spot.kind == log.kind && spot.board !in log.measured then
      HasRowOf(kept, log.source) && exists y :: LeftOut(window, base, spot, y)
    else
      || (HasRowOf(kept, log.source) && exists y :: LeftOut(window, base, spot, y) && newer(y, log.source))
      || (spot.kind != log.kind && LeftOut(window, base, spot, log.source)
          && exists z :: HasRowOf(kept, z) && newer(log.source, z))
  }

  /** One truncated sidecar and one log: refreshing from it writes what refreshing from its base does if and only if
      the log loses no row at any spot. */
  lemma MeasuredAgainExactly(window: Width, base: Sidecar, log: Log)
    requires WellWritten(base)
    ensures Refreshed(window, [Truncated(window, base)], [log]) == Refreshed(window, [base], [log])
            <==> forall spot :: !Loses(window, base, log, spot)
  {
    assert AllTruncated(window, [base]) == [Truncated(window, base)];
    OneBaseHeld(window, base);
    SameUnlessBroughtBack(window, [base], [log]);
    forall spot ensures (exists y :: BringsBack(window, [base], [log], spot, y)) <==> Loses(window, base, log, spot) {
      BroughtBackExactly(window, base, log, spot);
    }
    if forall spot :: !Loses(window, base, log, spot) {
      forall spot, y ensures !BringsBack(window, [base], [log], spot, y) {
        assert !Loses(window, base, log, spot);
      }
    }
    if spot :| Loses(window, base, log, spot) {
      var y :| BringsBack(window, [base], [log], spot, y);
    }
  }

  lemma OneBaseHeld(window: Width, base: Sidecar)
    requires WellWritten(base)
    ensures HeldByBases(window, [base])
  {
    var t := Truncated(window, base);
    assert AllTruncated(window, [base]) == [t];
    forall spot, s ensures HeldAt(window, [base], spot, s) {
      OneBase(base, spot);
      OneBase(t, spot);
      OneBaseDates(base);
      OneBaseDates(t);
      TruncatedHolds(window, base, spot);
      KeptReadsBack(window, Filed(map[], RowsAt(base, spot)), base.dates);
      FiledHolds(map[], RowsAt(t, spot), s);
    }
  }

  lemma OneBaseDates(base: Sidecar)
    ensures BaseDates([base]) == base.dates
  {
    OneBase(base, Spot("", Layout));
    assert Dates([base], []) == BaseDates([base]);
  }

  /** What the base and its truncated sidecar have at a spot before and after the log. */
  lemma OneLog(window: Width, base: Sidecar, log: Log, spot: Spot)
    requires WellWritten(base)
    ensures var found := Filed(map[], RowsAt(base, spot));
            && WithLogs([base], [log], spot) == LogFiled(found, log, spot)
            && Dates([base], [log]) == base.dates[log.source := log.date]
            && (forall y :: HasRowOf(RowsAt(base, spot), y) <==> y in found)
            && (forall y :: HasRowOf(RowsAt(Truncated(window, base), spot), y) <==>
                y in TopOf(window, found, base.dates))
  {
    var found := Filed(map[], RowsAt(base, spot));
    OneBase(base, spot);
    OneBaseDates(base);
    assert [log][..0] == [];
    TruncatedHolds(window, base, spot);
    forall y: string ensures HasRowOf(RowsAt(base, spot), y) <==> y in found {
      FiledHolds(map[], RowsAt(base, spot), y);
    }
    forall y: string
      ensures HasRowOf(RowsAt(Truncated(window, base), spot), y) <==> y in TopOf(window, found, base.dates) {
      KeptHasTop(window, found, base.dates, y);
    }
  }

  lemma TruncatedNames(window: Width, base: Sidecar, log: Log, spot: Spot)
    requires WellWritten(base)
    ensures var top := TopOf(window, Filed(map[], RowsAt(base, spot)), base.dates);
            var few := WithLogs(AllTruncated(window, [base]), [log], spot);
            few.Keys == WithMoved(top, log.source, spot.board !in log.measured, spot.kind != log.kind)
  {
    var t := Truncated(window, base);
    assert AllTruncated(window, [base]) == [t];
    TruncatedHolds(window, base, spot);
    TruncatedIsWellWritten(window, base);
    OneLog(window, t, log, spot);
    LogMovesName(Filed(map[], RowsAt(t, spot)), log, spot);
    KeptReadsBack(window, Filed(map[], RowsAt(base, spot)), base.dates);
  }

  lemma BroughtBackExactly(window: Width, base: Sidecar, log: Log, spot: Spot)
    requires WellWritten(base)
    ensures (exists y :: BringsBack(window, [base], [log], spot, y)) <==> Loses(window, base, log, spot)
  {
    var names := Filed(map[], RowsAt(base, spot)).Keys;
    var newer, newer' := ByDate(base.dates), ByDate(base.dates[log.source := log.date]);
    ByDateIsOrder(base.dates);
    ByDateIsOrder(base.dates[log.source := log.date]);
    ComesBackExactly(names, window, newer, newer', log.source, spot.board !in log.measured, spot.kind != log.kind);
    BroughtBackNames(window, base, log, spot);
    LosesNames(window, base, log, spot);
  }

  lemma BroughtBackNames(window: Width, base: Sidecar, log: Log, spot: Spot)
    requires WellWritten(base)
    ensures var names := Filed(map[], RowsAt(base, spot)).Keys;
            var out, other := spot.board !in log.measured, spot.kind != log.kind;
            var newer' := ByDate(base.dates[log.source := log.date]);
            (exists y :: BringsBack(window, [base], [log], spot, y)) <==>
            exists y :: y in Top(WithMoved(names, log.source, out, other), window, newer')
                        && y !in WithMoved(Top(names, window, ByDate(base.dates)), log.source, out, other)
  {
    var found := Filed(map[], RowsAt(base, spot));
    var out, other := spot.board !in log.measured, spot.kind != log.kind;
    OneLog(window, base, log, spot);
    TruncatedNames(window, base, log, spot);
    var all := WithLogs([base], [log], spot);
    LogMovesName(found, log, spot);
    BroughtBackAmong(window, [base], [log], spot, all.Keys,
                     WithMoved(TopOf(window, found, base.dates), log.source, out, other), Dates([base], [log]));
  }

  lemma LogMovesName(found: Found, log: Log, spot: Spot)
    ensures LogFiled(found, log, spot).Keys
            == WithMoved(found.Keys, log.source, spot.board !in log.measured, spot.kind != log.kind)
  {
  }

  lemma BroughtBackAmong(window: Width, bases: seq<Sidecar>, logs: seq<Log>, spot: Spot, all: set<string>,
                         few: set<string>, dates: map<string, string>)
    requires all == WithLogs(bases, logs, spot).Keys && few == WithLogs(AllTruncated(window, bases), logs, spot).Keys
    requires dates == Dates(bases, logs)
    ensures (exists y :: BringsBack(window, bases, logs, spot, y)) <==>
            exists y :: y in Top(all, window, ByDate(dates)) && y !in few
  {
    if y :| BringsBack(window, bases, logs, spot, y) {
      assert y in Top(all, window, ByDate(dates)) && y !in few;
    }
    if y :| y in Top(all, window, ByDate(dates)) && y !in few {
      assert BringsBack(window, bases, logs, spot, y);
    }
  }

  lemma LosesNames(window: Width, base: Sidecar, log: Log, spot: Spot)
    requires WellWritten(base)
    ensures var names := Filed(map[], RowsAt(base, spot)).Keys;
            Loses(window, base, log, spot) <==>
            ComesBack(names, window, ByDate(base.dates), ByDate(base.dates[log.source := log.date]), log.source,
                      spot.board !in log.measured, spot.kind != log.kind)
  {
    OneLog(window, base, log, spot);
    var found := Filed(map[], RowsAt(base, spot));
    var top := TopOf(window, found, base.dates);
    forall y: string ensures LeftOut(window, base, spot, y) <==> y in found && y !in top {
    }
  }
}
