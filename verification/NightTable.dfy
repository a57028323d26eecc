/** The table of nights in a document: the newest rows between two markers. */
module NightTable {
  import opened Options
  import opened Texts
  import opened Sequences
  import opened Newest

  /** The header's first columns; the cell `Night` tells it from a row. */
  const FIRST_COLUMNS := "| Night | main |"
  const HEADER := FIRST_COLUMNS + " Fingerprints | Expansion | Short | Sweep | Designer | Gap (placement / routing) "
                  + "| Against the previous night (better/same/worse) |"
  const RULE := " --- |"
  const SEPARATOR := "|" + RULE + RULE + RULE + RULE + RULE + RULE + RULE + RULE + RULE

  // --- A row's night --------------------------------------------------------------------------

  function Strip(s: string): string {
    if s != [] && IsSpace(s[0]) then Strip(s[1..])
    else if s != [] && IsSpace(s[|s| - 1]) then Strip(s[..|s| - 1])
    else s
  }

  function UpToBar(s: string): string {
    if s == [] || s[0] == '|' then [] else [s[0]] + UpToBar(s[1..])
  }

  function Bars(s: string): nat {
    if s == [] then 0 else (if s[0] == '|' then 1 else 0) + Bars(s[1..])
  }

  /** The text between the first two bars; None without any (the source's IndexError). */
  function Cell(s: string): Option<string> {
    if s == [] then None else if s[0] == '|' then Some(Strip(UpToBar(s[1..]))) else Cell(s[1..])
  }

  /** The night of a line of the table, the empty string for other lines. */
  function NightOf(line: string): string {
    if line != [] && line[0] == '|' && Bars(line) > 1 then Cell(line).Or("") else ""
  }

  predicate AllBlank(s: string) { forall i :: 0 <= i < |s| ==> IsSpace(s[i]) }

  predicate IsStripped(s: string) { s != "" ==> !IsSpace(s[0]) && !IsSpace(s[|s| - 1]) }

  /** Stripping takes the blanks from both ends, and nothing else. */
  lemma {:induction false} StripExactly(s: string, before: string, core: string, after: string)
    requires s == before + core + after && AllBlank(before) && AllBlank(after) && IsStripped(core)
    ensures Strip(s) == core
  {
    if before != "" {
      assert s[1..] == before[1..] + core + after;
      StripExactly(s[1..], before[1..], core, after);
    } else if after != "" && core != "" {
      assert s == core + after && s[0] == core[0];
      assert s[..|s| - 1] == before + core + after[..|after| - 1];
      StripExactly(s[..|s| - 1], before, core, after[..|after| - 1]);
    } else if after != "" {
      assert s == after && s[1..] == before + core + after[1..];
      StripExactly(s[1..], before, core, after[1..]);
    } else {
      assert s == core;
    }
  }

  lemma {:induction false} Stripped(s: string) returns (before: string, after: string)
    ensures s == before + Strip(s) + after && AllBlank(before) && AllBlank(after) && IsStripped(Strip(s))
  {
    before, after := "", "";
    if s != "" && IsSpace(s[0]) {
      before, after := Stripped(s[1..]);
      before := [s[0]] + before;
    } else if s != "" && IsSpace(s[|s| - 1]) {
      before, after := Stripped(s[..|s| - 1]);
      after := after + [s[|s| - 1]];
    }
  }

  lemma {:induction false} BarsOfConcat(a: string, b: string)
    ensures Bars(a + b) == Bars(a) + Bars(b)
  {
    if a == "" {
      assert a + b == b;
    } else {
      assert (a + b)[1..] == a[1..] + b;
      BarsOfConcat(a[1..], b);
    }
  }

  lemma {:induction false} NoBars(s: string)
    ensures Bars(s) == 0 <==> '|' !in s
  {
    if s != "" {
      NoBars(s[1..]);
      assert s == [s[0]] + s[1..];
    }
  }

  lemma {:induction false} UpToBarExactly(cell: string, rest: string)
    requires '|' !in cell && EndsCell(rest)
    ensures UpToBar(cell + rest) == cell
  {
    if cell == "" {
      assert cell + rest == rest;
    } else {
      assert (cell + rest)[1..] == cell[1..] + rest;
      assert cell == [cell[0]] + cell[1..];
      UpToBarExactly(cell[1..], rest);
    }
  }

  predicate EndsCell(rest: string) { rest == "" || rest[0] == '|' }

  lemma {:induction false} CellBehind(s: string, before: string, cell: string, rest: string)
    requires s == before + "|" + cell + rest && '|' !in before && '|' !in cell && EndsCell(rest)
    ensures Cell(s) == Some(Strip(cell))
  {
    if before == "" {
      assert s[1..] == cell + rest;
      UpToBarExactly(cell, rest);
    } else {
      assert before == [before[0]] + before[1..] && s[0] == before[0];
      CellBehind(s[1..], before[1..], cell, rest);
    }
  }

  /** A line with this night in its first column: between a bar at its start and the next. */
  predicate HasColumn(line: string, before: string, night: string, after: string, rest: string) {
    && line == "|" + (before + night + after) + rest && rest != "" && rest[0] == '|'
    && '|' !in before + night + after && AllBlank(before) && AllBlank(after) && IsStripped(night)
  }

  lemma ColumnIsNight(line: string, before: string, night: string, after: string, rest: string)
    requires HasColumn(line, before, night, after, rest)
    ensures NightOf(line) == night && Cell(line) == Some(night)
  {
    var cell := before + night + after;
    assert line == "" + "|" + cell + rest;
    CellBehind(line, "", cell, rest);
    StripExactly(cell, before, night, after);
    assert line[1..] == cell + rest && rest == ['|'] + rest[1..];
    BarsOfConcat(cell, rest);
  }

  lemma NightIsColumn(line: string) returns (before: string, after: string, rest: string)
    requires NightOf(line) != ""
    ensures HasColumn(line, before, NightOf(line), after, rest)
  {
    var cell := UpToBar(line[1..]);
    ColumnAndRest(line[1..]);
    rest := line[1 + |cell|..];
    assert line == ['|'] + line[1..] && line[1..][|cell|..] == rest;
    NoBars(cell);
    BarsOfConcat(cell, rest);
    before, after := Stripped(cell);
  }

  lemma {:induction false} ColumnAndRest(s: string)
    ensures var cell := UpToBar(s); |cell| <= |s| && s == cell + s[|cell|..] && '|' !in cell && EndsCell(s[|cell|..])
  {
    if s != "" && s[0] != '|' {
      ColumnAndRest(s[1..]);
      var cell := UpToBar(s[1..]);
      assert s[1..][|cell|..] == s[|cell| + 1..];
      assert s == [s[0]] + s[1..];
    }
  }

  /** A line is of a night if and only if it starts with a bar and has the night before another, but for blanks. */
  lemma NightOfExactly(line: string, night: string)
    requires night != ""
    ensures NightOf(line) == night <==> exists before, after, rest :: HasColumn(line, before, night, after, rest)
  {
    if NightOf(line) == night {
      var before, after, rest := NightIsColumn(line);
    }
    if before, after, rest :| HasColumn(line, before, night, after, rest) {
      ColumnIsNight(line, before, night, after, rest);
    }
  }

  predicate AllDigits(s: string, n: nat) { |s| == n && forall i :: 0 <= i < n ==> s[i] in DIGITS }

  predicate NamesDay(s: string, year: string, month: string, day: string, rest: string) {
    s == year + "-" + month + "-" + day + rest && AllDigits(year, 4) && AllDigits(month, 2) && AllDigits(day, 2)
  }

  /** A night's name starts with year, month and day in digits. */
  lemma NightNamesDay(s: string)
    ensures IsNight(s) <==> exists year, month, day, rest :: NamesDay(s, year, month, day, rest)
  {
    forall i | 0 <= i < |s| ensures IsDigit(s[i]) <==> s[i] in DIGITS {
      DigitExactly(s[i]);
    }
    if IsNight(s) {
      assert s == s[..4] + "-" + s[5..7] + "-" + s[8..10] + s[10..];
      assert NamesDay(s, s[..4], s[5..7], s[8..10], s[10..]);
    }
  }

  predicate IsNight(s: string) {
    && |s| >= 10 && s[4] == '-' && s[7] == '-'
    && forall i | i in {0, 1, 2, 3, 5, 6, 8, 9} :: IsDigit(s[i])
  }

  /** A line the table reads back: one of a night. */
  predicate IsRow(line: string) { IsNight(NightOf(line)) }

  // --- Reading and writing the table ----------------------------------------------------------

  /** The last line of each night. */
  function RowsOf(lines: seq<string>): map<string, string> {
    if lines == [] then map[]
    else
      var line := lines[|lines| - 1];
      var rows := RowsOf(lines[..|lines| - 1]);
      if IsRow(line) then rows[NightOf(line) := line] else rows
  }

  function LinesOf(nights: seq<string>, rows: map<string, string>): (lines: seq<string>)
    requires forall n :: n in nights ==> n in rows
    ensures |lines| == |nights| && forall i :: 0 <= i < |nights| ==> lines[i] == rows[nights[i]]
  {
    seq(|nights|, i requires 0 <= i < |nights| => rows[nights[i]])
  }

  /** The rows of the newest nights. */
  function Kept(rows: map<string, string>, keep: nat): map<string, string> {
    map n | n in Top(rows.Keys, keep, ByName()) :: rows[n]
  }

  /** The rows of the newest nights, newest first. */
  function NewestFirst(rows: map<string, string>, keep: nat): seq<string> {
    ByNameIsOrder();
    var nights := Window(rows.Keys, keep, ByName());
    WindowHasRows(rows, keep);
    LinesOf(nights, rows)
  }

  lemma WindowHasRows(rows: map<string, string>, keep: nat)
    requires IsOrder(ByName())
    ensures forall n :: n in Window(rows.Keys, keep, ByName()) ==> n in rows
  {
    forall n | n in Window(rows.Keys, keep, ByName()) ensures n in rows {
      WindowIsTop(rows.Keys, keep, ByName(), n);
    }
  }

  /** The rows are those of the newest nights: as many as are kept, each night after the next one's, and after every
      night left out. */
  lemma NewestFirstDescends(rows: map<string, string>, keep: nat) returns (nights: seq<string>)
    ensures |nights| == (if |rows| < keep then |rows| else keep)
    ensures forall n :: n in nights ==> n in rows
    ensures NewestFirst(rows, keep) == LinesOf(nights, rows)
    ensures forall i, j :: 0 <= i < j < |nights| ==> Before(nights[j], nights[i])
    ensures forall i, n :: 0 <= i < |nights| && n in rows && n !in nights ==> Before(n, nights[i])
  {
    ByNameIsOrder();
    nights := Window(rows.Keys, keep, ByName());
    WindowHasRows(rows, keep);
    WindowDescends(rows.Keys, keep, ByName());
  }

  /** A document cut at the table's markers: the lines between them, and the text before and after. */
  datatype Document = Unmarked | Marked(head: string, lines: seq<string>, tail: string)

  datatype Merged = NoBlock | NoNight | Written(doc: Document)

  /** The table as it is written: a line break after the marker, the header, the rows. */
  function Table(rows: map<string, string>, keep: nat): seq<string> {
    ["", HEADER, SEPARATOR] + NewestFirst(rows, keep)
  }

  /** Below the line break the table has its header and the separator, and then the rows. */
  lemma TableHasHeader(rows: map<string, string>, keep: nat)
    ensures var table := Table(rows, keep);
            && |table| >= 3 && table[0] == "" && table[1] == HEADER && table[2] == SEPARATOR
            && table[3..] == NewestFirst(rows, keep)
  {
  }

  /** What a merge leaves. */
  function Merge(doc: Document, row: string, keep: nat): Merged {
    if doc.Unmarked? then NoBlock
    else if Cell(row).None? then NoNight
    else Written(doc.(lines := Table(RowsOf(doc.lines)[Cell(row).value := row], keep)))
  }

  method MergeTable(doc: Document, row: string, keep: nat) returns (merged: Merged)
    ensures merged == Merge(doc, row, keep)
  {
    if doc.Unmarked? {
      return NoBlock;
    }
    var rows: map<string, string> := map[];
    for i := 0 to |doc.lines|
      invariant rows == RowsOf(doc.lines[..i])
    {
      assert doc.lines[..i + 1][..i] == doc.lines[..i];
      var night := NightOf(doc.lines[i]);
      if IsNight(night) {
        rows := rows[night := doc.lines[i]];
      }
    }
    assert doc.lines[..|doc.lines|] == doc.lines;
    var own := Cell(row);
    if own.None? {
      return NoNight;
    }
    rows := rows[own.value := row];
    return Written(doc.(lines := ["", HEADER, SEPARATOR] + NewestFirst(rows, keep)));
  }

  // --- Reading back -----------------------------------------------------------------------------

  /** Every row stands under its own night. */
  ghost predicate Filed(rows: map<string, string>) {
    forall n :: n in rows ==> IsRow(rows[n]) && NightOf(rows[n]) == n
  }

  lemma {:induction false} RowsAreFiled(lines: seq<string>)
    ensures Filed(RowsOf(lines))
  {
    if lines != [] {
      RowsAreFiled(lines[..|lines| - 1]);
    }
  }

  lemma RowNamesItself(row: string)
    requires IsRow(row)
    ensures Cell(row) == Some(NightOf(row))
  {
  }

  /** The rows of some nights, written and read back. */
  function ReadBack(nights: seq<string>, rows: map<string, string>): map<string, string>
    requires forall n :: n in nights ==> n in rows
  {
    RowsOf(LinesOf(nights, rows))
  }

  lemma {:induction false} RowsOfLines(nights: seq<string>, rows: map<string, string>, n: string)
    requires Filed(rows) && forall m :: m in nights ==> m in rows
    ensures n in ReadBack(nights, rows) <==> n in nights
    ensures n in nights ==> ReadBack(nights, rows)[n] == rows[n]
  {
    if nights != [] {
      var front, last := nights[..|nights| - 1], nights[|nights| - 1];
      RowsOfLines(front, rows, n);
      assert nights == front + [last];
      LastLine(nights, rows);
    }
  }

  lemma LastLine(nights: seq<string>, rows: map<string, string>)
    requires Filed(rows) && nights != [] && forall m :: m in nights ==> m in rows
    ensures var front, last := nights[..|nights| - 1], nights[|nights| - 1];
            ReadBack(nights, rows) == ReadBack(front, rows)[last := rows[last]]
  {
    assert LinesOf(nights, rows)[..|nights| - 1] == LinesOf(nights[..|nights| - 1], rows);
  }

  lemma {:induction false} RowsOfBoth(first: seq<string>, second: seq<string>)
    requires RowsOf(first) == map[]
    ensures RowsOf(first + second) == RowsOf(second)
  {
    if second == [] {
      assert first + second == first;
    } else {
      var front := second[..|second| - 1];
      assert (first + second)[..|first + second| - 1] == first + front;
      RowsOfBoth(first, front);
    }
  }

  lemma {:induction false} StripKeepsStart(s: string)
    requires s != [] && !IsSpace(s[0])
    ensures Strip(s) != [] && Strip(s)[0] == s[0]
  {
    if IsSpace(s[|s| - 1]) {
      StripKeepsStart(s[..|s| - 1]);
    }
  }

  /** A line whose first cell starts with no digit is none of a night. */
  lemma StartsWithNoDigit(line: string)
    requires |line| > 2 && line[0] == '|' && line[1] == ' ' && line[2] != '|' && !IsSpace(line[2]) && !IsDigit(line[2])
    ensures !IsRow(line)
  {
    var cell := UpToBar(line[1..]);
    assert line[1..][0] == line[1] && line[1..][1..] == line[2..];
    assert cell == [' '] + UpToBar(line[2..]);
    assert UpToBar(line[2..])[0] == line[2];
    assert cell[1..] == UpToBar(line[2..]);
    StripKeepsStart(cell[1..]);
  }

  lemma HeadIsNoRow()
    ensures RowsOf(["", HEADER, SEPARATOR]) == map[]
  {
    var head := ["", HEADER, SEPARATOR];
    StartsWithNoDigit(HEADER);
    StartsWithNoDigit(SEPARATOR);
    assert head[..1] == [""] && head[..2] == ["", HEADER] && head[..2][..1] == [""];
    assert RowsOf([""][..0]) == map[];
    assert RowsOf([""]) == map[];
    assert RowsOf(["", HEADER]) == map[];
  }

  /** A table that is written reads back as the rows it kept. */
  lemma TableReadsBack(rows: map<string, string>, keep: nat)
    requires Filed(rows)
    ensures RowsOf(Table(rows, keep)) == Kept(rows, keep)
  {
    HeadIsNoRow();
    RowsOfBoth(["", HEADER, SEPARATOR], NewestFirst(rows, keep));
    NewestReadBack(rows, keep);
  }

  lemma NewestReadBack(rows: map<string, string>, keep: nat)
    requires Filed(rows)
    ensures RowsOf(NewestFirst(rows, keep)) == Kept(rows, keep)
  {
    ByNameIsOrder();
    var nights := Window(rows.Keys, keep, ByName());
    WindowHasRows(rows, keep);
    forall n: string ensures SameRow(ReadBack(nights, rows), Kept(rows, keep), n) {
      KeptReadsBack(rows, keep, n);
    }
    SameRowsSameMap(ReadBack(nights, rows), Kept(rows, keep));
  }

  predicate SameRow(rows: map<string, string>, rows': map<string, string>, n: string) {
    (n in rows <==> n in rows') && (n in rows && n in rows' ==> rows[n] == rows'[n])
  }

  lemma SameRowsSameMap(rows: map<string, string>, rows': map<string, string>)
    requires forall n :: SameRow(rows, rows', n)
    ensures rows == rows'
  {
    assert forall n :: n in rows ==> SameRow(rows, rows', n);
    assert forall n :: n in rows' ==> SameRow(rows, rows', n);
  }

  lemma KeptReadsBack(rows: map<string, string>, keep: nat, n: string)
    requires Filed(rows) && IsOrder(ByName())
    requires forall m :: m in Window(rows.Keys, keep, ByName()) ==> m in rows
    ensures SameRow(ReadBack(Window(rows.Keys, keep, ByName()), rows), Kept(rows, keep), n)
  {
    RowsOfLines(Window(rows.Keys, keep, ByName()), rows, n);
    WindowIsTop(rows.Keys, keep, ByName(), n);
  }

  // --- Many merges ------------------------------------------------------------------------------

  /** The rows after each of `more` replaced the one of its night. */
  function With(rows: map<string, string>, more: seq<string>): map<string, string> {
    if more == [] then rows else With(rows, more[..|more| - 1])[NightOf(more[|more| - 1]) := more[|more| - 1]]
  }

  /** One merge after the other. */
  function MergeAll(doc: Document, rows: seq<string>, keep: nat): Document {
    if rows == [] then doc
    else
      var before := MergeAll(doc, rows[..|rows| - 1], keep);
      var merged := Merge(before, rows[|rows| - 1], keep);
      if merged.Written? then merged.doc else before
  }

  /** Keeping the newest first does not change what a later row leaves. */
  lemma KeptThenRow(rows: map<string, string>, n: string, row: string, keep: nat)
    ensures Kept(Kept(rows, keep)[n := row], keep) == Kept(rows[n := row], keep)
  {
    ByNameIsOrder();
    var newer := ByName();
    var few, all := Kept(rows, keep).Keys + {n}, rows.Keys + {n};
    assert Kept(rows, keep)[n := row].Keys == few && rows[n := row].Keys == all;
    forall y | y in all && y !in few ensures |NewerIn(few, y, newer)| >= keep {
      LeftOutIsOld(rows.Keys, keep, newer, y);
      assert Kept(rows, keep).Keys == Top(rows.Keys, keep, newer);
      Larger(NewerIn(Kept(rows, keep).Keys, y, newer), NewerIn(few, y, newer));
    }
    OldNamesDoNotMatter(few, all, keep, newer);
  }

  /** Tables that keep the same rows read the same. */
  lemma SameRowsSameTable(rows: map<string, string>, rows': map<string, string>, keep: nat)
    requires Kept(rows, keep) == Kept(rows', keep)
    ensures Table(rows, keep) == Table(rows', keep)
  {
    ByNameIsOrder();
    assert Kept(rows, keep).Keys == Top(rows.Keys, keep, ByName());
    assert Kept(rows', keep).Keys == Top(rows'.Keys, keep, ByName());
    SameTopSameWindow(rows.Keys, rows'.Keys, keep, ByName());
    var nights := Window(rows.Keys, keep, ByName());
    WindowHasRows(rows, keep);
    WindowHasRows(rows', keep);
    forall i | 0 <= i < |nights| ensures rows[nights[i]] == rows'[nights[i]] {
      WindowIsTop(rows.Keys, keep, ByName(), nights[i]);
      assert rows[nights[i]] == Kept(rows, keep)[nights[i]];
      assert rows'[nights[i]] == Kept(rows', keep)[nights[i]];
    }
    assert LinesOf(nights, rows) == LinesOf(nights, rows');
  }

  /** Whatever the document held, merging rows one by one leaves the newest of all of them, and what stands
      around the table. */
  lemma {:induction false} MergesLeaveNewest(doc: Document, rows: seq<string>, keep: nat)
    requires doc.Marked? && rows != [] && forall i :: 0 <= i < |rows| ==> IsRow(rows[i])
    ensures MergeAll(doc, rows, keep) == doc.(lines := Table(With(RowsOf(doc.lines), rows), keep))
  {
    var front, last := rows[..|rows| - 1], rows[|rows| - 1];
    var n := NightOf(last);
    RowNamesItself(last);
    RowsAreFiled(doc.lines);
    if front == [] {
      assert With(RowsOf(doc.lines), front) == RowsOf(doc.lines);
    } else {
      MergesLeaveNewest(doc, front, keep);
      var all := With(RowsOf(doc.lines), front);
      WithIsFiled(RowsOf(doc.lines), front);
      TableReadsBack(all, keep);
      KeptThenRow(all, n, last, keep);
      SameRowsSameTable(Kept(all, keep)[n := last], all[n := last], keep);
    }
  }

  lemma {:induction false} WithIsFiled(rows: map<string, string>, more: seq<string>)
    requires Filed(rows) && forall i :: 0 <= i < |more| ==> IsRow(more[i])
    ensures Filed(With(rows, more))
  {
    if more != [] {
      WithIsFiled(rows, more[..|more| - 1]);
    }
  }

  // --- The order of the merges ------------------------------------------------------------------

  ghost predicate DistinctNights(rows: seq<string>) {
    forall i, j :: 0 <= i < j < |rows| ==> NightOf(rows[i]) != NightOf(rows[j])
  }

  /** A row of `more` stands under its night. */
  lemma {:induction false} WithAt(rows: map<string, string>, more: seq<string>, n: string)
    requires DistinctNights(more)
    ensures forall i :: 0 <= i < |more| && NightOf(more[i]) == n ==>
              n in With(rows, more) && With(rows, more)[n] == more[i]
    ensures (forall i :: 0 <= i < |more| ==> NightOf(more[i]) != n)
            ==> (n in With(rows, more) <==> n in rows) && (n in rows ==> With(rows, more)[n] == rows[n])
  {
    if more != [] {
      var front := more[..|more| - 1];
      WithAt(rows, front, n);
      forall i | 0 <= i < |more| && NightOf(more[i]) == n
        ensures n in With(rows, more) && With(rows, more)[n] == more[i] {
        if i < |front| {
          assert front[i] == more[i];
          assert NightOf(more[i]) != NightOf(more[|more| - 1]);
        }
      }
    }
  }

  /** The order in which rows of different nights are merged does not matter. */
  lemma OrderDoesNotMatter(doc: Document, rows: seq<string>, rows': seq<string>, keep: nat)
    requires doc.Marked? && multiset(rows) == multiset(rows') && DistinctNights(rows)
    requires forall i :: 0 <= i < |rows| ==> IsRow(rows[i])
    ensures MergeAll(doc, rows, keep) == MergeAll(doc, rows', keep)
  {
    assert |rows| == |multiset(rows)| == |rows'|;
    forall r: string ensures r in rows <==> r in rows' {
      assert r in multiset(rows) <==> r in multiset(rows');
    }
    if rows != [] {
      forall i | 0 <= i < |rows'| ensures IsRow(rows'[i]) {
        assert rows'[i] in rows;
      }
      MergesLeaveNewest(doc, rows, keep);
      MergesLeaveNewest(doc, rows', keep);
      StillDistinct(rows, rows');
      WithSameRows(RowsOf(doc.lines), rows, rows');
    }
  }

  lemma StillDistinct(rows: seq<string>, rows': seq<string>)
    requires DistinctNights(rows) && multiset(rows) == multiset(rows')
    ensures DistinctNights(rows')
  {
    DistinctByMultiset(rows, rows');
    forall i, j | 0 <= i < j < |rows'| ensures NightOf(rows'[i]) != NightOf(rows'[j]) {
      assert rows'[i] in multiset(rows) && rows'[j] in multiset(rows);
      var p :| 0 <= p < |rows| && rows[p] == rows'[i];
      var q :| 0 <= q < |rows| && rows[q] == rows'[j];
      assert p != q;
    }
  }

  lemma WithSameRows(held: map<string, string>, rows: seq<string>, rows': seq<string>)
    requires DistinctNights(rows) && DistinctNights(rows') && forall r :: r in rows <==> r in rows'
    ensures With(held, rows) == With(held, rows')
  {
    forall n: string ensures (n in With(held, rows) <==> n in With(held, rows'))
                     ensures n in With(held, rows) && n in With(held, rows') ==>
                               With(held, rows)[n] == With(held, rows')[n] {
      WithAt(held, rows, n);
      WithAt(held, rows', n);
      if i :| 0 <= i < |rows| && NightOf(rows[i]) == n {
        assert rows[i] in rows';
      } else if j :| 0 <= j < |rows'| && NightOf(rows'[j]) == n {
        assert rows'[j] in rows;
      }
    }
  }

  /** Merging a row once more changes nothing. */
  lemma MergedAgain(doc: Document, row: string, keep: nat)
    requires doc.Marked? && IsRow(row)
    ensures var once := Merge(doc, row, keep);
            once.Written? && Merge(once.doc, row, keep) == once
  {
    RowNamesItself(row);
    var held := RowsOf(doc.lines);
    MergesLeaveNewest(doc, [row], keep);
    MergesLeaveNewest(doc, [row, row], keep);
    assert [row, row][..1] == [row] && [row][..0] == [];
    assert With(held, [row, row]) == With(held, [row]);
  }
}
