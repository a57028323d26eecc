/** The sidecar of measured rows: per board and kind those of the newest sources. */
module Estimates {
  import opened Options
  import opened Newest

  datatype Kind = Layout | Short | Schematic | Designer | Expansion

  /** A board and a kind. */
  datatype Spot = Spot(board: string, kind: Kind)

  datatype Measured = Measured(peakMb: real, seconds: real)

  /** What one source measured. */
  datatype Row = Row(source: string, measured: Measured)

  /** The dates of the sources, and the rows of each board and kind. */
  datatype Sidecar = Sidecar(dates: map<string, string>, rows: map<Spot, seq<Row>>)

  /** A log to add: its name, kind and date, and what it measured per board. */
  datatype Log = Log(source: string, kind: Kind, date: string, measured: map<string, Measured>)

  /** How many sources a board and kind keeps. */
  type Width = w: nat | w >= 1 witness 1

  // --- Gathering --------------------------------------------------------------------------------

  type Found = map<string, Measured>

  function Filed(found: Found, rows: seq<Row>): Found {
    if rows == [] then found
    else Filed(found, rows[..|rows| - 1])[rows[|rows| - 1].source := rows[|rows| - 1].measured]
  }

  function RowsAt(base: Sidecar, spot: Spot): seq<Row> { if spot in base.rows then base.rows[spot] else [] }

  /** What the bases hold at a spot: of two rows of one source, the last. */
  function Gathered(bases: seq<Sidecar>, spot: Spot): Found {
    if bases == [] then map[] else Filed(Gathered(bases[..|bases| - 1], spot), RowsAt(bases[|bases| - 1], spot))
  }

  function LogFiled(found: Found, log: Log, spot: Spot): Found {
    if spot.kind != log.kind then found
    else if spot.board in log.measured then found[log.source := log.measured[spot.board]]
    else found - {log.source}
  }

  /** A log takes the place of the rows its source had for its kind. */
  function WithLogs(bases: seq<Sidecar>, logs: seq<Log>, spot: Spot): Found {
    if logs == [] then Gathered(bases, spot)
    else LogFiled(WithLogs(bases, logs[..|logs| - 1], spot), logs[|logs| - 1], spot)
  }

  /** The later of two dates of one source. */
  function LaterDates(dates: map<string, string>, more: map<string, string>): map<string, string> {
    map s | s in dates.Keys + more.Keys ::
      if s in dates && !(s in more && Before(dates[s], more[s])) then dates[s] else more[s]
  }

  function BaseDates(bases: seq<Sidecar>): map<string, string> {
    if bases == [] then map[] else LaterDates(BaseDates(bases[..|bases| - 1]), bases[|bases| - 1].dates)
  }

  /** A source's date among the bases is one that some base has for it, and none has a later one. */
  lemma {:induction false} BaseDatesAreLatest(bases: seq<Sidecar>, s: string)
    ensures s in BaseDates(bases) <==> exists base :: base in bases && s in base.dates
    ensures s in BaseDates(bases) ==>
              && (exists base :: base in bases && s in base.dates && base.dates[s] == BaseDates(bases)[s])
              && forall base :: base in bases && s in base.dates ==> !Before(BaseDates(bases)[s], base.dates[s])
  {
    if bases != [] {
      var front, last := bases[..|bases| - 1], bases[|bases| - 1];
      BaseDatesAreLatest(front, s);
      assert bases == front + [last];
      assert last in bases && forall base :: base in bases <==> base in front || base == last;
      if s in last.dates {
        OneOrEqual(last.dates[s], last.dates[s]);
        if s in BaseDates(front) {
          LaterThanAll(front, s, BaseDates(front)[s], last.dates[s]);
        }
      }
    }
  }

  /** A date later than one that no base's is later than is later than all. */
  lemma LaterThanAll(bases: seq<Sidecar>, s: string, date: string, later: string)
    requires forall base :: base in bases && s in base.dates ==> !Before(date, base.dates[s])
    ensures Before(date, later) ==> forall base :: base in bases && s in base.dates ==> !Before(later, base.dates[s])
  {
    if Before(date, later) {
      forall base | base in bases && s in base.dates ensures !Before(later, base.dates[s]) {
        if Before(later, base.dates[s]) {
          BeforeChains(date, later, base.dates[s]);
        }
      }
    }
  }

  function Dates(bases: seq<Sidecar>, logs: seq<Log>): map<string, string> {
    if logs == [] then BaseDates(bases)
    else Dates(bases, logs[..|logs| - 1])[logs[|logs| - 1].source := logs[|logs| - 1].date]
  }

  // --- Writing ------------------------------------------------------------------------------------

  /** The rows of the newest sources, newest first. */
  function Kept(window: Width, found: Found, dates: map<string, string>): (rows: seq<Row>)
    ensures forall i :: 0 <= i < |rows| ==> rows[i].source in found && rows[i].measured == found[rows[i].source]
  {
    ByDateIsOrder(dates);
    var names := Window(found.Keys, window, ByDate(dates));
    WindowHolds(window, found, dates);
    seq(|names|, i requires 0 <= i < |names| => Row(names[i], found[names[i]]))
  }

  lemma WindowHolds(window: Width, found: Found, dates: map<string, string>)
    requires IsOrder(ByDate(dates))
    ensures var names := Window(found.Keys, window, ByDate(dates)); forall i :: 0 <= i < |names| ==> names[i] in found
  {
    var names := Window(found.Keys, window, ByDate(dates));
    forall i | 0 <= i < |names| ensures names[i] in found {
      WindowIsTop(found.Keys, window, ByDate(dates), names[i]);
    }
  }

  /** The kept rows are those of the sources with the latest dates, the latest first, and of those of one date those
      with the last names. */
  lemma KeptAreLatest(window: Width, found: Found, dates: map<string, string>)
    requires found.Keys <= dates.Keys
    ensures var rows := Kept(window, found, dates);
            && |rows| == (if |found| < window then |found| else window)
            && (forall i, j :: 0 <= i < j < |rows| ==> Later(rows[i].source, rows[j].source, dates))
            && forall i, s :: 0 <= i < |rows| && s in found && !HasRowOf(rows, s) ==> Later(rows[i].source, s, dates)
  {
    ByDateIsOrder(dates);
    WindowDescends(found.Keys, window, ByDate(dates));
    var rows, names := Kept(window, found, dates), Window(found.Keys, window, ByDate(dates));
    forall i, s | 0 <= i < |rows| && s in found && !HasRowOf(rows, s) ensures Later(rows[i].source, s, dates) {
      assert forall j :: 0 <= j < |names| ==> rows[j].source == names[j];
      assert s !in names;
    }
  }

  /** Whether a source has a later date than another, or the same and a later name. */
  predicate Later(source: string, other: string, dates: map<string, string>)
    requires source in dates && other in dates
  {
    Before(dates[other], dates[source]) || (dates[source] == dates[other] && Before(other, source))
  }

  function SpotsOfLog(log: Log): set<Spot> { set b | b in log.measured :: Spot(b, log.kind) }

  function Spots(bases: seq<Sidecar>, logs: seq<Log>): set<Spot> {
    if logs != [] then Spots(bases, logs[..|logs| - 1]) + SpotsOfLog(logs[|logs| - 1])
    else if bases != [] then Spots(bases[..|bases| - 1], logs) + bases[|bases| - 1].rows.Keys
    else {}
  }

  predicate HasRowOf(rows: seq<Row>, source: string) { exists i :: 0 <= i < |rows| && rows[i].source == source }

  /** The dates of the sources whose rows are kept. */
  function UsedDates(rows: map<Spot, seq<Row>>, dates: map<string, string>): map<string, string> {
    map s | s in dates && exists spot :: spot in rows && HasRowOf(rows[spot], s) :: dates[s]
  }

  function Kepts(window: Width, found: map<Spot, Found>, dates: map<string, string>): map<Spot, seq<Row>> {
    map spot | spot in found && found[spot] != map[] :: Kept(window, found[spot], dates)
  }

  /** None when a row's source has no date (the source's KeyError). */
  function Write(window: Width, found: map<Spot, Found>, dates: map<string, string>): Option<Sidecar> {
    if forall spot :: spot in found ==> found[spot].Keys <= dates.Keys
    then Some(Sidecar(UsedDates(Kepts(window, found, dates), dates), Kepts(window, found, dates)))
    else None
  }

  function FoundIn(bases: seq<Sidecar>, logs: seq<Log>): map<Spot, Found> {
    map spot | spot in Spots(bases, logs) :: WithLogs(bases, logs, spot)
  }

  function Refreshed(window: Width, bases: seq<Sidecar>, logs: seq<Log>): Option<Sidecar> {
    Write(window, FoundIn(bases, logs), Dates(bases, logs))
  }

  // --- The loops ----------------------------------------------------------------------------------

  function Known(table: map<Spot, Found>, spot: Spot): Found { if spot in table then table[spot] else map[] }

  method FileRows(table: map<Spot, Found>, spot: Spot, rows: seq<Row>) returns (more: map<Spot, Found>)
    ensures forall other :: Known(more, other) == if other == spot then Filed(Known(table, spot), rows)
            else Known(table, other)
  {
    more := table;
    for i := 0 to |rows|
      invariant forall other ::
                  Known(more, other) == if other == spot then Filed(Known(table, spot), rows[..i])
                    else Known(table, other)
    {
      assert rows[..i + 1][..i] == rows[..i];
      more := more[spot := Known(more, spot)[rows[i].source := rows[i].measured]];
    }
    assert rows[..|rows|] == rows;
  }

  method FileBase(table: map<Spot, Found>, base: Sidecar) returns (more: map<Spot, Found>)
    ensures forall spot :: Known(more, spot) == Filed(Known(table, spot), RowsAt(base, spot))
  {
    more := table;
    var todo := base.rows.Keys;
    while todo != {}
      invariant todo <= base.rows.Keys
      invariant forall spot ::
                  Known(more, spot) == if spot in todo then Known(table, spot)
                    else Filed(Known(table, spot), RowsAt(base, spot))
      decreases |todo|
    {
      var spot :| spot in todo;
      more := FileRows(more, spot, base.rows[spot]);
      todo := todo - {spot};
    }
  }

  /** Takes the source's rows of the kind out. */
  method Unfile(table: map<Spot, Found>, kind: Kind, source: string) returns (fewer: map<Spot, Found>)
    ensures forall spot ::
              Known(fewer, spot) == if spot.kind == kind then Known(table, spot) - {source} else Known(table, spot)
  {
    fewer := table;
    var todo := table.Keys;
    while todo != {}
      invariant todo <= fewer.Keys == table.Keys
      invariant forall spot ::
                  Known(fewer, spot) ==
                  if spot.kind == kind && spot !in todo then Known(table, spot) - {source} else Known(table, spot)
      decreases |todo|
    {
      var spot :| spot in todo;
      if spot.kind == kind {
        fewer := fewer[spot := fewer[spot] - {source}];
      }
      todo := todo - {spot};
    }
  }

  method FileLog(table: map<Spot, Found>, log: Log) returns (more: map<Spot, Found>)
    ensures forall spot :: Known(more, spot) == LogFiled(Known(table, spot), log, spot)
  {
    more := Unfile(table, log.kind, log.source);
    ghost var fewer := more;
    var todo := log.measured.Keys;
    while todo != {}
      invariant todo <= log.measured.Keys
      invariant forall spot ::
                  Known(more, spot) ==
                  if spot.kind == log.kind && spot.board in log.measured && spot.board !in todo
                  then Known(fewer, spot)[log.source := log.measured[spot.board]] else Known(fewer, spot)
      decreases |todo|
    {
      var board :| board in todo;
      var spot := Spot(board, log.kind);
      more := more[spot := Known(more, spot)[log.source := log.measured[board]]];
      todo := todo - {board};
    }
    forall spot ensures Known(more, spot) == LogFiled(Known(table, spot), log, spot) {
      var found, name := Known(table, spot), log.source;
      if spot.kind == log.kind && spot.board in log.measured {
        assert (found - {name})[name := log.measured[spot.board]] == found[name := log.measured[spot.board]];
      }
    }
  }

  /** Tables that know the same are written alike. */
  lemma WrittenAlike(window: Width, table: map<Spot, Found>, table': map<Spot, Found>, dates: map<string, string>)
    requires forall spot :: Known(table, spot) == Known(table', spot)
    ensures Write(window, table, dates) == Write(window, table', dates)
  {
    forall spot | spot in table && table[spot] != map[] ensures spot in table' && table'[spot] == table[spot] {
      assert Known(table, spot) == Known(table', spot);
    }
    forall spot | spot in table' && table'[spot] != map[] ensures spot in table && table'[spot] == table[spot] {
      assert Known(table, spot) == Known(table', spot);
    }
    assert Kepts(window, table, dates) == Kepts(window, table', dates);
  }

  lemma {:induction false} NothingElsewhere(bases: seq<Sidecar>, logs: seq<Log>, spot: Spot)
    requires spot !in Spots(bases, logs)
    ensures WithLogs(bases, logs, spot) == map[]
  {
    if logs != [] {
      NothingElsewhere(bases, logs[..|logs| - 1], spot);
    } else if bases != [] {
      NothingElsewhere(bases[..|bases| - 1], logs, spot);
    }
  }

  method Refresh(window: Width, bases: seq<Sidecar>, logs: seq<Log>) returns (sidecar: Option<Sidecar>)
    ensures sidecar == Refreshed(window, bases, logs)
  {
    var dates: map<string, string> := map[];
    var table: map<Spot, Found> := map[];
    for i := 0 to |bases|
      invariant dates == BaseDates(bases[..i])
      invariant forall spot :: Known(table, spot) == Gathered(bases[..i], spot)
    {
      assert bases[..i + 1][..i] == bases[..i];
      dates := LaterDates(dates, bases[i].dates);
      table := FileBase(table, bases[i]);
    }
    assert bases[..|bases|] == bases;
    for j := 0 to |logs|
      invariant dates == Dates(bases, logs[..j])
      invariant forall spot :: Known(table, spot) == WithLogs(bases, logs[..j], spot)
    {
      assert logs[..j + 1][..j] == logs[..j];
      dates := dates[logs[j].source := logs[j].date];
      table := FileLog(table, logs[j]);
    }
    assert logs[..|logs|] == logs;
    forall spot ensures Known(table, spot) == Known(FoundIn(bases, logs), spot) {
      if spot !in Spots(bases, logs) {
        NothingElsewhere(bases, logs, spot);
      }
    }
    WrittenAlike(window, table, FoundIn(bases, logs), dates);
    sidecar := Write(window, table, dates);
  }

  // --- Leaving old rows out -------------------------------------------------------------------------

  /** Rows that as many newer ones as the window holds stand before do not matter. */
  lemma KeptAlike(window: Width, few: Found, all: Found, dates: map<string, string>, dates': map<string, string>)
    requires few.Keys <= all.Keys
    requires forall s :: s in few ==> few[s] == all[s] && DateIn(dates', s) == DateIn(dates, s)
    requires forall y :: y in all && y !in few ==> |NewerIn(few.Keys, y, ByDate(dates))| >= window
    ensures Kept(window, few, dates') == Kept(window, all, dates)
  {
    var newer, newer' := ByDate(dates), ByDate(dates');
    ByDateIsOrder(dates);
    ByDateIsOrder(dates');
    OldNamesDoNotMatter(few.Keys, all.Keys, window, newer);
    SameTopSameWindow(few.Keys, all.Keys, window, newer);
    SameOrderSameList(few.Keys, newer', newer);
    var names := Window(few.Keys, window, newer');
    WindowHolds(window, few, dates');
    assert Kept(window, few, dates') == Kept(window, all, dates);
  }

  /** The newest rows of what a spot holds. */
  function TopOf(window: Width, found: Found, dates: map<string, string>): set<string> {
    Top(found.Keys, window, ByDate(dates))
  }

  lemma KeptHasTop(window: Width, found: Found, dates: map<string, string>, s: string)
    ensures HasRowOf(Kept(window, found, dates), s) <==> s in TopOf(window, found, dates)
  {
    ByDateIsOrder(dates);
    var names, rows := Window(found.Keys, window, ByDate(dates)), Kept(window, found, dates);
    WindowIsTop(found.Keys, window, ByDate(dates), s);
    if s in names {
      var i :| 0 <= i < |names| && names[i] == s;
      assert rows[i].source == s;
    }
    if i :| 0 <= i < |rows| && rows[i].source == s {
      assert names[i] == s;
    }
  }

  /** Every row's source has a date, as in a sidecar that was written. */
  ghost predicate WellWritten(base: Sidecar) {
    forall spot, s :: HasRowOf(RowsAt(base, spot), s) ==> s in base.dates
  }

  /** What a written sidecar holds. */
  lemma WrittenHolds(window: Width, found: map<Spot, Found>, dates: map<string, string>, spot: Spot)
    requires Write(window, found, dates).Some?
    ensures var w := Write(window, found, dates).value;
            && RowsAt(w, spot) == Kept(window, Known(found, spot), dates)
            && (forall s :: s in w.dates ==> s in dates && w.dates[s] == dates[s])
            && forall s :: HasRowOf(RowsAt(w, spot), s) ==> s in w.dates
  {
    var w := Write(window, found, dates).value;
    if Known(found, spot) == map[] {
      ByDateIsOrder(dates);
      assert Descending(Known(found, spot).Keys, ByDate(dates)) == [];
    }
    forall s | HasRowOf(RowsAt(w, spot), s) ensures s in w.dates {
      KeptHasTop(window, Known(found, spot), dates, s);
    }
  }

  /** What a map of rows holds once they are filed. */
  lemma {:induction false} FiledHolds(found: Found, rows: seq<Row>, s: string)
    ensures s in Filed(found, rows) <==> s in found || HasRowOf(rows, s)
    ensures !HasRowOf(rows, s) && s in found ==> Filed(found, rows)[s] == found[s]
    ensures HasRowOf(rows, s) ==>
              exists i :: 0 <= i < |rows| && rows[i].source == s && Filed(found, rows)[s] == rows[i].measured
  {
    if rows != [] {
      var front, last := rows[..|rows| - 1], rows[|rows| - 1];
      FiledHolds(found, front, s);
      assert forall i :: 0 <= i < |front| ==> rows[i] == front[i];
      if last.source == s {
        assert rows[|rows| - 1].source == s;
      } else if HasRowOf(front, s) {
        var i :| 0 <= i < |front| && front[i].source == s && Filed(found, front)[s] == front[i].measured;
        assert rows[i] == front[i];
      }
    }
  }

  /** A sidecar that was written is refreshed to itself. */
  lemma RefreshedAgain(window: Width, bases: seq<Sidecar>, logs: seq<Log>)
    requires Refreshed(window, bases, logs).Some?
    ensures Refreshed(window, [Refreshed(window, bases, logs).value], []) == Refreshed(window, bases, logs)
  {
    WrittenAgain(window, FoundIn(bases, logs), Dates(bases, logs));
  }

  lemma OneBase(base: Sidecar, spot: Spot)
    ensures Gathered([base], spot) == Filed(map[], RowsAt(base, spot))
    ensures WithLogs([base], [], spot) == Filed(map[], RowsAt(base, spot))
    ensures Dates([base], []) == base.dates
    ensures Spots([base], []) == base.rows.Keys
    ensures Known(FoundIn([base], []), spot) == Filed(map[], RowsAt(base, spot))
  {
    assert [base][..0] == [];
    assert LaterDates(map[], base.dates) == base.dates;
    assert BaseDates([]) == map[] && BaseDates([base]) == LaterDates(BaseDates([]), base.dates);
    assert Spots([], []) == {};
  }

  /** What is read back of the rows kept at a spot. */
  lemma KeptReadsBack(window: Width, found: Found, dates: map<string, string>)
    ensures var back := Filed(map[], Kept(window, found, dates));
            back.Keys == TopOf(window, found, dates) && forall s :: s in back ==> s in found && back[s] == found[s]
  {
    var rows := Kept(window, found, dates);
    var back := Filed(map[], rows);
    forall s: string ensures s in back <==> s in TopOf(window, found, dates) {
      FiledHolds(map[], rows, s);
      KeptHasTop(window, found, dates, s);
    }
    forall s | s in back ensures s in found && back[s] == found[s] {
      FiledHolds(map[], rows, s);
    }
  }

  lemma KeptAgain(window: Width, found: Found, dates: map<string, string>, dates': map<string, string>)
    requires forall s :: s in TopOf(window, found, dates) ==> DateIn(dates', s) == DateIn(dates, s)
    ensures Kept(window, Filed(map[], Kept(window, found, dates)), dates') == Kept(window, found, dates)
  {
    ByDateIsOrder(dates);
    KeptReadsBack(window, found, dates);
    forall y | y in found && y !in TopOf(window, found, dates)
      ensures |NewerIn(TopOf(window, found, dates), y, ByDate(dates))| >= window {
      LeftOutIsOld(found.Keys, window, ByDate(dates), y);
    }
    KeptAlike(window, Filed(map[], Kept(window, found, dates)), found, dates, dates');
  }

  /** Reading a written sidecar back and keeping its newest rows gives those of the spot. */
  lemma SpotReadsBack(window: Width, found: map<Spot, Found>, dates: map<string, string>, spot: Spot)
    requires Write(window, found, dates).Some?
    ensures var w := Write(window, found, dates).value;
            var back := Filed(map[], RowsAt(w, spot));
            && Kept(window, back, w.dates) == RowsAt(w, spot) && back.Keys <= w.dates.Keys
               && (spot in w.rows ==> back != map[])
  {
    var w := Write(window, found, dates).value;
    WrittenHolds(window, found, dates, spot);
    KeptReadsBack(window, Known(found, spot), dates);
    forall s | s in TopOf(window, Known(found, spot), dates) ensures s in w.dates {
      KeptHasTop(window, Known(found, spot), dates, s);
    }
    KeptAgain(window, Known(found, spot), dates, w.dates);
    SomeAreNewest(window, Known(found, spot), dates);
  }

  lemma UsedAgain(rows: map<Spot, seq<Row>>, dates: map<string, string>)
    ensures UsedDates(rows, UsedDates(rows, dates)) == UsedDates(rows, dates)
  {
  }

  lemma WrittenFrom(window: Width, back: map<Spot, Found>, w: Sidecar)
    requires back.Keys == w.rows.Keys && UsedDates(w.rows, w.dates) == w.dates
    requires forall spot :: spot in w.rows ==>
               back[spot] != map[] && Kept(window, back[spot], w.dates) == w.rows[spot]
                 && back[spot].Keys <= w.dates.Keys
    ensures Write(window, back, w.dates) == Some(w)
  {
    KeptsFrom(window, back, w);
  }

  lemma KeptsFrom(window: Width, back: map<Spot, Found>, w: Sidecar)
    requires back.Keys == w.rows.Keys
    requires forall spot :: spot in w.rows ==> back[spot] != map[] && Kept(window, back[spot], w.dates) == w.rows[spot]
    ensures Kepts(window, back, w.dates) == w.rows
  {
    assert forall spot :: spot in back <==> spot in w.rows;
  }

  lemma WrittenAgain(window: Width, found: map<Spot, Found>, dates: map<string, string>)
    requires Write(window, found, dates).Some?
    ensures Refreshed(window, [Write(window, found, dates).value], []) == Write(window, found, dates)
  {
    var w := Write(window, found, dates).value;
    var back := FoundIn([w], []);
    OneBase(w, Spot("", Layout));
    UsedAgain(Kepts(window, found, dates), dates);
    forall spot | spot in w.rows
      ensures back[spot] != map[] && Kept(window, back[spot], w.dates) == w.rows[spot]
              && back[spot].Keys <= w.dates.Keys {
      OneBase(w, spot);
      assert back[spot] == Known(back, spot);
      SpotReadsBack(window, found, dates, spot);
    }
    WrittenFrom(window, back, w);
  }

  lemma SomeAreNewest(window: Width, found: Found, dates: map<string, string>)
    ensures TopOf(window, found, dates) == {} <==> found == map[]
  {
    ByDateIsOrder(dates);
    if found != map[] {
      var y :| y in found;
      if y !in TopOf(window, found, dates) {
        LeftOutIsOld(found.Keys, window, ByDate(dates), y);
      }
    }
  }
}
