/** A document of "## " sections, some of them numbered sweeps, and the section of one night merged into it.
    A text is the sequence of its lines, as cut at every line break: the empty text is one empty line. */
module Sections {
  import opened Options
  import opened Markers

  // --- Sections ---------------------------------------------------------------------------------

  /** Where the lines from `i` on have their next heading, or end. */
  function NextHeading(lines: seq<string>, i: nat): (end: nat)
    requires i <= |lines|
    ensures i <= end <= |lines| && (end < |lines| ==> IsHeading(lines[end]))
    ensures forall j :: i <= j < end ==> !IsHeading(lines[j])
    decreases |lines| - i
  {
    if i == |lines| || IsHeading(lines[i]) then i else NextHeading(lines, i + 1)
  }

  function SectionEnd(lines: seq<string>, start: nat): (end: nat)
    requires start < |lines|
    ensures start < end <= |lines|
  {
    NextHeading(lines, start + 1)
  }

  /** The night whose marker the section has. */
  function SectionNight(lines: seq<string>, start: nat): Option<string>
    requires start < |lines|
  {
    MarkerIn(lines[start + 1..SectionEnd(lines, start)])
  }

  datatype Sweep = Sweep(start: nat, number: nat, night: Option<string>)

  /** The sweep's section that starts at a line, when one does. */
  function SweepAt(lines: seq<string>, i: nat): Option<Sweep>
    requires i < |lines|
  {
    var number := SweepNumber(lines[i]);
    if number.Some? then Some(Sweep(i, number.value, SectionNight(lines, i))) else None
  }

  function SweepsAt(lines: seq<string>): (at: seq<Option<Sweep>>)
    ensures |at| == |lines| && forall i :: 0 <= i < |lines| ==> at[i] == SweepAt(lines, i)
  {
    seq(|lines|, i requires 0 <= i < |lines| => SweepAt(lines, i))
  }

  /** Those there are among the first `n`. */
  function Listed(at: seq<Option<Sweep>>, n: nat): seq<Sweep>
    requires n <= |at|
  {
    if n == 0 then [] else Listed(at, n - 1) + (if at[n - 1].Some? then [at[n - 1].value] else [])
  }

  /** The sweeps' sections of a text. */
  function Sweeps(lines: seq<string>): (sweeps: seq<Sweep>)
    ensures forall k :: 0 <= k < |sweeps| ==> sweeps[k].start < |lines|
  {
    SweepsAreListed(SweepsAt(lines), |lines|);
    Listed(SweepsAt(lines), |lines|)
  }

  /** The list holds exactly the sweeps that start among the first `n` lines, in their order. */
  ghost predicate Lists(sweeps: seq<Sweep>, at: seq<Option<Sweep>>, n: nat)
    requires n <= |at|
  {
    && (forall k :: 0 <= k < |sweeps| ==> sweeps[k].start < n && at[sweeps[k].start] == Some(sweeps[k]))
    && (forall i :: 0 <= i < n && at[i].Some? ==> HasStart(sweeps, i))
    && (forall j, k :: 0 <= j < k < |sweeps| ==> sweeps[j].start < sweeps[k].start)
  }

  ghost predicate HasStart(sweeps: seq<Sweep>, i: nat) { exists k :: 0 <= k < |sweeps| && sweeps[k].start == i }

  lemma StillHasStart(front: seq<Sweep>, more: seq<Sweep>, i: nat)
    requires HasStart(front, i)
    ensures HasStart(front + more, i)
  {
    var k :| 0 <= k < |front| && front[k].start == i;
    assert (front + more)[k].start == i;
  }

  lemma {:induction false} SweepsAreListed(at: seq<Option<Sweep>>, n: nat)
    requires n <= |at| && forall i :: 0 <= i < |at| && at[i].Some? ==> at[i].value.start == i
    ensures Lists(Listed(at, n), at, n)
  {
    if n > 0 {
      SweepsAreListed(at, n - 1);
      ListsOneMore(Listed(at, n - 1), at, n - 1);
    }
  }

  lemma ListsOneMore(front: seq<Sweep>, at: seq<Option<Sweep>>, n: nat)
    requires n < |at| && Lists(front, at, n) && (at[n].Some? ==> at[n].value.start == n)
    ensures Lists(front + (if at[n].Some? then [at[n].value] else []), at, n + 1)
  {
    var more := if at[n].Some? then [at[n].value] else [];
    forall i | 0 <= i <= n && at[i].Some? ensures HasStart(front + more, i) {
      if i < n {
        StillHasStart(front, more, i);
      } else {
        assert (front + more)[|front|].start == i;
      }
    }
  }

  method SweepSections(lines: seq<string>) returns (sweeps: seq<Sweep>)
    ensures sweeps == Sweeps(lines)
  {
    sweeps := [];
    for i := 0 to |lines|
      invariant sweeps == Listed(SweepsAt(lines), i)
    {
      var number := SweepNumber(lines[i]);
      if number.Some? {
        sweeps := sweeps + [Sweep(i, number.value, SectionNight(lines, i))];
      }
    }
  }

  /** The first sweep of the night. */
  function OwnSweep(sweeps: seq<Sweep>, night: string): (k: Option<nat>)
    ensures k.Some? ==> k.value < |sweeps| && sweeps[k.value].night == Some(night)
                        && forall j :: 0 <= j < k.value ==> sweeps[j].night != Some(night)
    ensures k.None? ==> forall j :: 0 <= j < |sweeps| ==> sweeps[j].night != Some(night)
  {
    if sweeps == [] then None
    else
      var front := sweeps[..|sweeps| - 1];
      var before := OwnSweep(front, night);
      if before.Some? then before
      else if sweeps[|sweeps| - 1].night == Some(night) then Some(|sweeps| - 1) else None
  }

  /** The first of the sweeps with the highest number. */
  function NewestSweep(sweeps: seq<Sweep>): (k: nat)
    requires sweeps != []
    ensures k < |sweeps| && forall j :: 0 <= j < |sweeps| ==> sweeps[j].number <= sweeps[k].number
    ensures forall j :: 0 <= j < k ==> sweeps[j].number < sweeps[k].number
  {
    if |sweeps| == 1 then 0
    else
      var k := NewestSweep(sweeps[..|sweeps| - 1]);
      if sweeps[|sweeps| - 1].number > sweeps[k].number then |sweeps| - 1 else k
  }

  /** Without the line breaks at the end. */
  function Trim(lines: seq<string>): (trimmed: seq<string>)
    ensures |trimmed| <= |lines| && trimmed == lines[..|trimmed|]
    ensures forall i :: |trimmed| <= i < |lines| ==> lines[i] == ""
    ensures lines != [] ==> trimmed != []
  {
    if |lines| > 1 && lines[|lines| - 1] == "" then Trim(lines[..|lines| - 1]) else lines
  }

  function Inserted(lines: seq<string>, at: nat, section: seq<string>): seq<string>
    requires at <= |lines|
  {
    Trim(lines[..at]) + [""] + section + lines[at..]
  }

  /** In place of the section that starts at `start`. */
  function Replaced(lines: seq<string>, start: nat, section: seq<string>): seq<string>
    requires start < |lines|
  {
    lines[..start] + section + lines[SectionEnd(lines, start)..]
  }

  /** Where the night's section goes: the start of its own, the end of the newest sweep's, the end of the text. */
  function Place(lines: seq<string>, sweeps: seq<Sweep>, night: string): (at: nat)
    requires forall k :: 0 <= k < |sweeps| ==> sweeps[k].start < |lines|
    ensures at <= |lines| && (OwnSweep(sweeps, night).Some? ==> at < |lines|)
  {
    var own := OwnSweep(sweeps, night);
    if own.Some? then sweeps[own.value].start
    else if sweeps == [] then |lines|
    else SectionEnd(lines, sweeps[NewestSweep(sweeps)].start)
  }

  function Merged(lines: seq<string>, night: string, section: seq<string>): seq<string> {
    var sweeps := Sweeps(lines);
    var at := Place(lines, sweeps, night);
    if OwnSweep(sweeps, night).Some? then Replaced(lines, at, section) else Inserted(lines, at, section)
  }

  /** The sweep's number for the night: the one of its own section, else one more than the highest. */
  function NumberFor(lines: seq<string>, night: string): nat {
    var sweeps := Sweeps(lines);
    var own := OwnSweep(sweeps, night);
    if own.Some? then sweeps[own.value].number
    else if sweeps == [] then 1 else sweeps[NewestSweep(sweeps)].number + 1
  }

  /** Looks for the night's own sweep. */
  method FindOwn(sweeps: seq<Sweep>, night: string) returns (own: Option<nat>)
    ensures own == OwnSweep(sweeps, night)
  {
    for k := 0 to |sweeps|
      invariant forall j :: 0 <= j < k ==> sweeps[j].night != Some(night)
    {
      if sweeps[k].night == Some(night) {
        return Some(k);
      }
    }
    return None;
  }

  method MergeSection(lines: seq<string>, night: string, section: seq<string>) returns (merged: seq<string>)
    ensures merged == Merged(lines, night, section)
  {
    var sweeps := SweepSections(lines);
    var own := FindOwn(sweeps, night);
    if own.Some? {
      return Replaced(lines, sweeps[own.value].start, section);
    }
    if sweeps == [] {
      return Inserted(lines, |lines|, section);
    }
    return Inserted(lines, SectionEnd(lines, sweeps[NewestSweep(sweeps)].start), section);
  }

  // --- The night's own section ------------------------------------------------------------------

  /** Line `i` starts a sweep's section with the night's marker. */
  predicate IsOwn(lines: seq<string>, i: nat, night: string) {
    i < |lines| && SweepNumber(lines[i]).Some? && SectionNight(lines, i) == Some(night)
  }

  /** The first of the night's sections. */
  ghost predicate IsFirstOwn(lines: seq<string>, i: nat, night: string) {
    IsOwn(lines, i, night) && forall j: nat :: j < i ==> !IsOwn(lines, j, night)
  }

  lemma FirstOfListed(lines: seq<string>, sweeps: seq<Sweep>, night: string, own: Option<nat>)
    requires Lists(sweeps, SweepsAt(lines), |lines|) && own == OwnSweep(sweeps, night)
    ensures own.Some? ==> IsFirstOwn(lines, sweeps[own.value].start, night)
    ensures own.None? ==> forall i: nat :: !IsOwn(lines, i, night)
  {
    forall i: nat | IsOwn(lines, i, night) ensures own.Some? && sweeps[own.value].start <= i {
      var at := SweepsAt(lines);
      assert at[i] == SweepAt(lines, i);
      var k :| 0 <= k < |sweeps| && sweeps[k].start == i;
    }
  }

  /** The search finds the first of the night's sections, and none only when there is none. */
  lemma OwnSweepIsFirst(lines: seq<string>, night: string)
    ensures var sweeps := Sweeps(lines);
            var own := OwnSweep(sweeps, night);
            && (own.Some? ==> IsFirstOwn(lines, sweeps[own.value].start, night))
            && (own.None? ==> forall i: nat :: !IsOwn(lines, i, night))
  {
    SweepsAreListed(SweepsAt(lines), |lines|);
    FirstOfListed(lines, Sweeps(lines), night, OwnSweep(Sweeps(lines), night));
  }

  /** A night's section: its heading, its marker, and no other heading. */
  ghost predicate IsSectionOf(section: seq<string>, night: string) {
    && section != [] && SweepNumber(section[0]).Some?
    && MarkerIn(section[1..]) == Some(night)
    && forall i :: 0 < i < |section| ==> !IsHeading(section[i])
  }

  /** A text cut where a section starts or the text ends. */
  ghost predicate CutsSections(lines: seq<string>, at: nat) {
    at <= |lines| && (at < |lines| ==> IsHeading(lines[at]))
  }

  /** What stands behind the cut does not matter to the sections before it. */
  lemma SectionsBeforeCut(lines: seq<string>, lines': seq<string>, at: nat, j: nat, night: string)
    requires CutsSections(lines, at) && CutsSections(lines', at) && lines[..at] == lines'[..at] && j < at
    ensures IsOwn(lines, j, night) == IsOwn(lines', j, night)
  {
    var end, end' := SectionEnd(lines, j), SectionEnd(lines', j);
    assert forall k :: 0 <= k < at ==> lines[k] == lines[..at][k] == lines'[k];
    assert end <= at && end' <= at;
    assert end == end';
    assert lines[j + 1..end] == lines[..at][j + 1..end] == lines'[j + 1..end];
  }

  /** The night's section after `before` ends where it should. */
  lemma SectionInPlace(before: seq<string>, section: seq<string>, rest: seq<string>, night: string)
    requires IsSectionOf(section, night) && CutsSections(rest, 0)
    ensures var lines := before + section + rest;
            IsOwn(lines, |before|, night) && SectionEnd(lines, |before|) == |before| + |section|
  {
    var lines := before + section + rest;
    var start, end := |before|, SectionEnd(before + section + rest, |before|);
    assert forall k :: 0 <= k < |section| ==> lines[start + k] == section[k];
    assert forall k :: start < k < start + |section| ==> lines[k] == section[k - start] && !IsHeading(lines[k]);
    if rest != [] {
      assert lines[start + |section|] == rest[0];
    }
    assert lines[start + 1..end] == section[1..];
  }

  lemma FirstOwnIsFound(lines: seq<string>, sweeps: seq<Sweep>, night: string, own: Option<nat>, i: nat)
    requires Lists(sweeps, SweepsAt(lines), |lines|) && own == OwnSweep(sweeps, night) && IsFirstOwn(lines, i, night)
    ensures own.Some? && sweeps[own.value].start == i && Some(sweeps[own.value].number) == SweepNumber(lines[i])
  {
    FirstOfListed(lines, sweeps, night, own);
  }

  lemma FirstOwnIsReplaced(lines: seq<string>, night: string, section: seq<string>, i: nat)
    requires IsFirstOwn(lines, i, night)
    ensures Merged(lines, night, section) == Replaced(lines, i, section)
    ensures Some(NumberFor(lines, night)) == SweepNumber(lines[i])
  {
    SweepsAreListed(SweepsAt(lines), |lines|);
    FirstOwnIsFound(lines, Sweeps(lines), night, OwnSweep(Sweeps(lines), night), i);
  }

  /** Where nothing before it is the night's, the section is written over itself. */
  lemma WrittenOverItself(before: seq<string>, section: seq<string>, rest: seq<string>, night: string)
    requires IsSectionOf(section, night) && CutsSections(rest, 0)
    requires forall j: nat :: j < |before| ==> !IsOwn(before + section + rest, j, night)
    ensures Merged(before + section + rest, night, section) == before + section + rest
    ensures Some(NumberFor(before + section + rest, night)) == SweepNumber(section[0])
  {
    var lines := before + section + rest;
    SectionInPlace(before, section, rest, night);
    FirstOwnIsReplaced(lines, night, section, |before|);
    assert lines[..|before|] == before && lines[|before| + |section|..] == rest && lines[|before|] == section[0];
  }

  /** Other line breaks before the cut do not matter either. */
  lemma SectionsBeforeBlanks(kept: seq<string>, blanks: seq<string>, blanks': seq<string>, rest: seq<string>,
                             rest': seq<string>, j: nat, night: string)
    requires forall i :: 0 <= i < |blanks| ==> blanks[i] == ""
    requires forall i :: 0 <= i < |blanks'| ==> blanks'[i] == ""
    requires CutsSections(rest, 0) && CutsSections(rest', 0)
    requires j < |kept| + |blanks| && IsOwn(kept + blanks + rest, j, night)
    ensures j < |kept| && IsOwn(kept + blanks' + rest', j, night)
  {
    var lines, lines' := kept + blanks + rest, kept + blanks' + rest';
    assert forall i :: |kept| <= i < |kept| + |blanks| ==> lines[i] == blanks[i - |kept|] == "";
    var end, end' := SectionEnd(lines, j), SectionEnd(lines', j);
    assert forall k :: 0 <= k < |kept| ==> lines[k] == kept[k] == lines'[k];
    if end < |kept| {
      assert end' == end;
      assert lines[j + 1..end] == kept[j + 1..end] == lines'[j + 1..end];
    } else {
      EndsBehindBlanks(kept, blanks, rest, end);
      EndsBehindBlanks(kept, blanks', rest', end');
      assert lines[j + 1..end] == kept[j + 1..] + blanks;
      assert lines'[j + 1..end'] == kept[j + 1..] + blanks';
      BlanksHoldNoMarker(kept[j + 1..], blanks);
      BlanksHoldNoMarker(kept[j + 1..], blanks');
    }
  }

  lemma EndsBehindBlanks(kept: seq<string>, blanks: seq<string>, rest: seq<string>, end: nat)
    requires forall i :: 0 <= i < |blanks| ==> blanks[i] == ""
    requires CutsSections(rest, 0) && |kept| <= end <= |kept + blanks + rest|
    requires CutsSections(kept + blanks + rest, end)
    requires forall j :: |kept| <= j < end ==> !IsHeading((kept + blanks + rest)[j])
    ensures end == |kept| + |blanks|
  {
    var lines := kept + blanks + rest;
    assert forall i :: |kept| <= i < |kept| + |blanks| ==> lines[i] == blanks[i - |kept|] == "";
    if rest != [] {
      assert lines[|kept| + |blanks|] == rest[0];
    }
  }

  /** Merging a night's section again changes nothing, and the night has the number of the section's heading. */
  lemma MergedAgain(lines: seq<string>, night: string, section: seq<string>)
    requires IsSectionOf(section, night)
    ensures var once := Merged(lines, night, section);
            Merged(once, night, section) == once && Some(NumberFor(once, night)) == SweepNumber(section[0])
  {
    var sweeps := Sweeps(lines);
    var at := Place(lines, sweeps, night);
    OwnSweepIsFirst(lines, night);
    if OwnSweep(sweeps, night).Some? {
      var before, rest := lines[..at], lines[SectionEnd(lines, at)..];
      var once := before + section + rest;
      assert once[|before|] == section[0];
      forall j: nat | j < |before| ensures !IsOwn(once, j, night) {
        SectionsBeforeCut(lines, once, at, j, night);
      }
      WrittenOverItself(before, section, rest, night);
    } else {
      InsertedAgain(lines, at, night, section);
    }
  }

  lemma InsertedAgain(lines: seq<string>, at: nat, night: string, section: seq<string>)
    requires IsSectionOf(section, night) && CutsSections(lines, at)
    requires forall i: nat :: !IsOwn(lines, i, night)
    ensures var once := Inserted(lines, at, section);
            Merged(once, night, section) == once && Some(NumberFor(once, night)) == SweepNumber(section[0])
  {
    var kept, rest := Trim(lines[..at]), lines[at..];
    var blanks := lines[|kept|..at];
    var once := Inserted(lines, at, section);
    assert lines == kept + blanks + rest;
    assert forall i :: 0 <= i < |blanks| ==> blanks[i] == lines[..at][|kept| + i];
    assert once == kept + [""] + (section + rest);
    forall j: nat | j < |kept| + 1 ensures !IsOwn(once, j, night) {
      if IsOwn(once, j, night) {
        SectionsBeforeBlanks(kept, [""], blanks, section + rest, rest, j, night);
      }
    }
    assert once == (kept + [""]) + section + rest;
    WrittenOverItself(kept + [""], section, rest, night);
  }

  // --- The other sections -------------------------------------------------------------------------

  /** The sections of a text: each heading with the lines up to the next one. */
  function Cut(lines: seq<string>): (sections: seq<seq<string>>)
    ensures forall k :: 0 <= k < |sections| ==> sections[k] != [] && IsHeading(sections[k][0])
  {
    if lines == [] then [] else WithLine(Cut(lines[..|lines| - 1]), lines[|lines| - 1])
  }

  function WithLine(sections: seq<seq<string>>, line: string): (more: seq<seq<string>>)
    ensures (forall k :: 0 <= k < |sections| ==> sections[k] != [] && IsHeading(sections[k][0]))
            ==> forall k :: 0 <= k < |more| ==> more[k] != [] && IsHeading(more[k][0])
  {
    if IsHeading(line) then sections + [[line]]
    else if sections == [] then []
    else sections[..|sections| - 1] + [sections[|sections| - 1] + [line]]
  }

  /** The lines before the first section. */
  function Preamble(lines: seq<string>): seq<string> {
    if Cut(lines) == [] then lines else Preamble(lines[..|lines| - 1])
  }

  /** The sections with the line breaks at their ends dropped. */
  function Tidy(sections: seq<seq<string>>): (tidied: seq<seq<string>>)
    ensures |tidied| == |sections| && forall k :: 0 <= k < |sections| ==> tidied[k] == Trim(sections[k])
  {
    seq(|sections|, k requires 0 <= k < |sections| => Trim(sections[k]))
  }

  lemma WithLineAfter(first: seq<seq<string>>, second: seq<seq<string>>, line: string)
    requires IsHeading(line) || second != []
    ensures WithLine(first + second, line) == first + WithLine(second, line)
  {
    if IsHeading(line) {
      assert first + second + [[line]] == first + (second + [[line]]);
    } else {
      var both := first + second;
      assert both[..|both| - 1] == first + second[..|second| - 1] && both[|both| - 1] == second[|second| - 1];
    }
  }

  /** A text whose end starts with a heading is cut there. */
  lemma {:induction false} CutBoth(first: seq<string>, second: seq<string>)
    requires CutsSections(second, 0)
    ensures Cut(first + second) == Cut(first) + Cut(second) && (second != [] ==> Cut(second) != [])
  {
    if second == [] {
      assert first + second == first;
    } else {
      var front, last := second[..|second| - 1], second[|second| - 1];
      assert (first + second)[..|first + second| - 1] == first + front;
      CutBoth(first, front);
      WithLineAfter(Cut(first), Cut(front), last);
    }
  }

  lemma {:induction false} SamePreamble(first: seq<string>, second: seq<string>)
    requires CutsSections(second, 0)
    ensures Preamble(first + second) == Preamble(first)
  {
    if second == [] {
      assert first + second == first;
    } else {
      var front := second[..|second| - 1];
      assert (first + second)[..|first + second| - 1] == first + front;
      CutBoth(first, second);
      SamePreamble(first, front);
    }
  }

  lemma {:induction false} CutOfSection(section: seq<string>)
    requires section != [] && IsHeading(section[0]) && forall i :: 0 < i < |section| ==> !IsHeading(section[i])
    ensures Cut(section) == [section]
  {
    var front := section[..|section| - 1];
    if front != [] {
      CutOfSection(front);
      assert section == front + [section[|section| - 1]];
    } else {
      assert section == [section[0]];
    }
  }

  lemma {:induction false} TrimOfBlanks(lines: seq<string>, blanks: seq<string>)
    requires lines != [] && forall i :: 0 <= i < |blanks| ==> blanks[i] == ""
    ensures Trim(lines + blanks) == Trim(lines)
  {
    if blanks == [] {
      assert lines + blanks == lines;
    } else {
      assert (lines + blanks)[..|lines + blanks| - 1] == lines + blanks[..|blanks| - 1];
      TrimOfBlanks(lines, blanks[..|blanks| - 1]);
    }
  }

  /** A line break more at the end of a text's sections. */
  lemma TidyWithBlank(sections: seq<seq<string>>)
    requires forall k :: 0 <= k < |sections| ==> sections[k] != []
    ensures Tidy(WithLine(sections, "")) == Tidy(sections)
  {
    if sections != [] {
      var last := |sections| - 1;
      TrimOfBlanks(sections[last], [""]);
      assert WithLine(sections, "") == sections[..last] + [sections[last] + [""]];
    }
  }

  /** Line breaks at the end of a text change its sections by line breaks only. */
  lemma {:induction false} CutOfBlanks(lines: seq<string>, blanks: seq<string>)
    requires lines != [] && forall i :: 0 <= i < |blanks| ==> blanks[i] == ""
    ensures Tidy(Cut(lines + blanks)) == Tidy(Cut(lines))
    ensures Trim(Preamble(lines + blanks)) == Trim(Preamble(lines))
  {
    if blanks == [] {
      assert lines + blanks == lines;
    } else {
      var front := blanks[..|blanks| - 1];
      assert (lines + blanks)[..|lines + blanks| - 1] == lines + front;
      CutOfBlanks(lines, front);
      TidyWithBlank(Cut(lines + front));
      if Cut(lines + front) == [] {
        TrimOfBlanks(lines, blanks);
        TrimOfBlanks(lines, front);
      }
    }
  }

  /** `after` is `before` with `section` as its `k`th, in place of the one there or between two. */
  ghost predicate HasPut(before: seq<seq<string>>, after: seq<seq<string>>, section: seq<string>, k: nat,
                         inPlace: bool) {
    && k + (if inPlace then 1 else 0) <= |before|
    && after == before[..k] + [section] + before[if inPlace then k + 1 else k..]
  }

  /** A merge puts the section in place of the night's own or between the others, at its place, and leaves every
      other section and the text before them as they were, up to line breaks at their ends. */
  lemma OthersStay(lines: seq<string>, night: string, section: seq<string>)
    requires lines != [] && IsSectionOf(section, night)
    ensures var sweeps := Sweeps(lines);
            var own, at := OwnSweep(sweeps, night), Place(lines, sweeps, night);
            var merged := Merged(lines, night, section);
            && Trim(Preamble(merged)) == Trim(Preamble(lines))
            && HasPut(Tidy(Cut(lines)), Tidy(Cut(merged)), Trim(section), |Cut(lines[..at])|, own.Some?)
  {
    var sweeps := Sweeps(lines);
    var at := Place(lines, sweeps, night);
    OwnSweepIsFirst(lines, night);
    if OwnSweep(sweeps, night).Some? {
      PutInPlace(lines, at, section);
    } else {
      PutBetween(lines, at, section);
    }
  }

  lemma PutInPlace(lines: seq<string>, at: nat, section: seq<string>)
    requires at < |lines| && IsHeading(lines[at])
    requires section != [] && IsHeading(section[0]) && forall i :: 0 < i < |section| ==> !IsHeading(section[i])
    ensures Preamble(Replaced(lines, at, section)) == Preamble(lines)
    ensures HasPut(Tidy(Cut(lines)), Tidy(Cut(Replaced(lines, at, section))), Trim(section), |Cut(lines[..at])|, true)
  {
    var end := SectionEnd(lines, at);
    var before, own, rest := lines[..at], lines[at..end], lines[end..];
    assert lines == before + own + rest;
    CutThree(before, own, rest);
    CutThree(before, section, rest);
    PutForOther(Cut(before), own, section, Cut(rest));
  }

  lemma PutForOther(first: seq<seq<string>>, own: seq<string>, section: seq<string>, second: seq<seq<string>>)
    ensures HasPut(Tidy(first + [own] + second), Tidy(first + [section] + second), Trim(section), |first|, true)
  {
    TidyOfThree(first, own, second);
    TidyOfThree(first, section, second);
    PutOfThree(Tidy(first), Trim(own), Trim(section), Tidy(second));
  }

  lemma PutOfThree(first: seq<seq<string>>, own: seq<string>, section: seq<string>, second: seq<seq<string>>)
    ensures HasPut(first + [own] + second, first + [section] + second, section, |first|, true)
  {
    var before := first + [own] + second;
    assert before[..|first|] == first && before[|first| + 1..] == second;
  }

  lemma CutThree(before: seq<string>, section: seq<string>, rest: seq<string>)
    requires section != [] && IsHeading(section[0]) && forall i :: 0 < i < |section| ==> !IsHeading(section[i])
    requires CutsSections(rest, 0)
    ensures Cut(before + section + rest) == Cut(before) + [section] + Cut(rest)
    ensures Preamble(before + section + rest) == Preamble(before)
  {
    CutBoth(before, section);
    CutBoth(before + section, rest);
    CutOfSection(section);
    SamePreamble(before, section);
    SamePreamble(before + section, rest);
  }

  /** A text's part before a cut, trimmed and ended by one line break, has the same sections. */
  lemma TrimmedSections(before: seq<string>)
    requires before != []
    ensures Tidy(Cut(Trim(before) + [""])) == Tidy(Cut(before))
    ensures Trim(Preamble(Trim(before) + [""])) == Trim(Preamble(before))
  {
    var kept := Trim(before);
    var blanks := before[|kept|..];
    assert before == kept + blanks;
    CutOfBlanks(kept, blanks);
    CutOfBlanks(kept, [""]);
  }

  lemma PutBetween(lines: seq<string>, at: nat, section: seq<string>)
    requires 0 < at <= |lines| && CutsSections(lines, at)
    requires section != [] && IsHeading(section[0]) && forall i :: 0 < i < |section| ==> !IsHeading(section[i])
    ensures Trim(Preamble(Inserted(lines, at, section))) == Trim(Preamble(lines))
    ensures HasPut(Tidy(Cut(lines)), Tidy(Cut(Inserted(lines, at, section))), Trim(section), |Cut(lines[..at])|, false)
  {
    var before, rest := lines[..at], lines[at..];
    assert lines == before + rest;
    TrimmedSections(before);
    CutBoth(before, rest);
    SamePreamble(before, rest);
    CutThree(Trim(before) + [""], section, rest);
    TidyOfBoth(Cut(before), Cut(rest));
    TidyOfThree(Cut(Trim(before) + [""]), section, Cut(rest));
    PutBetweenTwo(Tidy(Cut(before)), Trim(section), Tidy(Cut(rest)));
  }

  lemma PutBetweenTwo(first: seq<seq<string>>, section: seq<string>, second: seq<seq<string>>)
    ensures HasPut(first + second, first + [section] + second, section, |first|, false)
  {
    var before := first + second;
    assert before[..|first|] == first && before[|first|..] == second;
  }

  lemma TidyOfBoth(first: seq<seq<string>>, second: seq<seq<string>>)
    ensures Tidy(first + second) == Tidy(first) + Tidy(second)
  {
  }

  lemma TidyOfThree(first: seq<seq<string>>, section: seq<string>, second: seq<seq<string>>)
    ensures Tidy(first + [section] + second) == Tidy(first) + [Trim(section)] + Tidy(second)
  {
  }

  // --- Where a section goes -----------------------------------------------------------------------

  predicate IsOfNight(section: seq<string>, night: string) {
    section != [] && SweepNumber(section[0]).Some? && MarkerIn(section[1..]) == Some(night)
  }

  /** The first of the night's sections. */
  ghost predicate IsNightsOwn(sections: seq<seq<string>>, night: string, k: nat) {
    && k < |sections| && IsOfNight(sections[k], night)
    && forall j :: 0 <= j < k ==> !IsOfNight(sections[j], night)
  }

  /** The numbers of the sections that are sweeps. */
  function SweepNumbers(sections: seq<seq<string>>): (numbers: seq<Option<nat>>)
    ensures |numbers| == |sections|
    ensures forall k :: 0 <= k < |sections| && sections[k] != [] ==> numbers[k] == SweepNumber(sections[k][0])
  {
    seq(|sections|, k requires 0 <= k < |sections| => if sections[k] == [] then None else SweepNumber(sections[k][0]))
  }

  predicate IsNumbered(numbers: seq<Option<nat>>, k: nat, n: nat) { k < |numbers| && numbers[k] == Some(n) }

  /** The first of the sweeps with the highest number. */
  ghost predicate IsNewest(numbers: seq<Option<nat>>, k: nat, number: nat) {
    && IsNumbered(numbers, k, number)
    && forall j: nat, n: nat :: IsNumbered(numbers, j, n) ==> n <= number && (j < k ==> n < number)
  }

  ghost predicate SomeOfNight(sections: seq<seq<string>>, night: string) {
    exists k :: 0 <= k < |sections| && IsOfNight(sections[k], night)
  }

  ghost predicate SomeSweep(numbers: seq<Option<nat>>) { exists k: nat, n: nat :: IsNumbered(numbers, k, n) }

  /** The section is in place of the night's own, else behind the newest sweep, else behind all. */
  ghost predicate PutRight(sections: seq<seq<string>>, merged: seq<seq<string>>, night: string, section: seq<string>) {
    var before, after, numbers := Tidy(sections), Tidy(merged), SweepNumbers(sections);
    if SomeOfNight(sections, night) then
      exists k: nat :: IsNightsOwn(sections, night, k) && HasPut(before, after, Trim(section), k, true)
    else if SomeSweep(numbers) then
      exists k: nat, n: nat :: IsNewest(numbers, k, n) && HasPut(before, after, Trim(section), k + 1, false)
    else HasPut(before, after, Trim(section), |sections|, false)
  }

  /** The night's number is that of its own section, else one more than the newest sweep's, else 1. */
  ghost predicate NumberedRight(sections: seq<seq<string>>, night: string, number: nat) {
    var numbers := SweepNumbers(sections);
    if SomeOfNight(sections, night) then
      exists k: nat :: IsNightsOwn(sections, night, k) && IsNumbered(numbers, k, number)
    else if SomeSweep(numbers) then
      exists k: nat, n: nat :: IsNewest(numbers, k, n) && number == n + 1
    else number == 1
  }

  /** How many sections start before a line. */
  function SectionsBefore(lines: seq<string>, i: nat): nat
    requires i <= |lines|
  {
    |Cut(lines[..i])|
  }

  /** A heading's section among all sections. */
  lemma SectionOfHeading(lines: seq<string>, i: nat)
    requires i < |lines| && IsHeading(lines[i])
    ensures var k, end := SectionsBefore(lines, i), SectionEnd(lines, i);
            k < |Cut(lines)| && Cut(lines)[k] == lines[i..end] && SectionsBefore(lines, end) == k + 1
  {
    var end := SectionEnd(lines, i);
    var before, section, rest := lines[..i], lines[i..end], lines[end..];
    assert lines == before + section + rest;
    CutThree(before, section, rest);
    assert lines[..end] == before + section + [];
    CutThree(before, section, []);
  }

  lemma {:induction false} HeadingOfSection(lines: seq<string>, k: nat) returns (i: nat)
    requires k < |Cut(lines)|
    ensures i < |lines| && IsHeading(lines[i]) && SectionsBefore(lines, i) == k
  {
    var n := |lines| - 1;
    var front := lines[..n];
    if k < |Cut(front)| {
      i := HeadingOfSection(front, k);
      assert front[..i] == lines[..i];
    } else {
      i := n;
    }
  }

  lemma LaterHeading(lines: seq<string>, i: nat, j: nat)
    requires i <= j <= |lines| && (i < |lines| ==> IsHeading(lines[i]))
    ensures SectionsBefore(lines, i) <= SectionsBefore(lines, j)
    ensures i < j ==> SectionsBefore(lines, i) < SectionsBefore(lines, j)
  {
    var between := lines[i..j];
    assert lines[..j] == lines[..i] + between;
    CutBoth(lines[..i], between);
  }

  lemma SameAsSection(lines: seq<string>, i: nat, night: string)
    requires i < |lines| && IsHeading(lines[i])
    ensures var k := SectionsBefore(lines, i);
            && k < |Cut(lines)| && Cut(lines)[k] != [] && Cut(lines)[k][0] == lines[i]
            && (IsOfNight(Cut(lines)[k], night) <==> IsOwn(lines, i, night))
  {
    SectionOfHeading(lines, i);
    var end := SectionEnd(lines, i);
    assert lines[i..end][1..] == lines[i + 1..end];
  }

  lemma OwnIsNights(lines: seq<string>, night: string, at: nat)
    requires IsFirstOwn(lines, at, night)
    ensures SomeOfNight(Cut(lines), night) && IsNightsOwn(Cut(lines), night, SectionsBefore(lines, at))
  {
    var k := SectionsBefore(lines, at);
    SameAsSection(lines, at, night);
    forall j | 0 <= j < k ensures !IsOfNight(Cut(lines)[j], night) {
      var i := HeadingOfSection(lines, j);
      SameAsSection(lines, i, night);
      if at <= i {
        LaterHeading(lines, at, i);
      }
    }
  }

  lemma NoneIsNights(lines: seq<string>, night: string)
    requires forall i: nat :: !IsOwn(lines, i, night)
    ensures !SomeOfNight(Cut(lines), night)
  {
    forall j | 0 <= j < |Cut(lines)| ensures !IsOfNight(Cut(lines)[j], night) {
      var i := HeadingOfSection(lines, j);
      SameAsSection(lines, i, night);
    }
  }

  function AllBefore(lines: seq<string>): (before: seq<nat>)
    ensures |before| == |lines| && forall i :: 0 <= i < |lines| ==> before[i] == SectionsBefore(lines, i)
  {
    seq(|lines|, i requires 0 <= i < |lines| => SectionsBefore(lines, i))
  }

  /** The lines where sweeps start are those of the sections that are sweeps, in their order. */
  ghost predicate Correspond(at: seq<Option<Sweep>>, before: seq<nat>, numbers: seq<Option<nat>>)
    requires |at| == |before|
  {
    && (forall i :: 0 <= i < |at| && at[i].Some? ==> IsNumbered(numbers, before[i], at[i].value.number))
    && (forall j: nat, n: nat :: IsNumbered(numbers, j, n) ==>
          exists i :: 0 <= i < |at| && at[i].Some? && before[i] == j && at[i].value.number == n)
    && forall i, j :: 0 <= i <= j < |at| && at[i].Some? ==> before[i] <= before[j]
  }

  lemma SweepIsSection(lines: seq<string>, i: nat)
    requires i < |lines| && SweepAt(lines, i).Some?
    ensures IsNumbered(SweepNumbers(Cut(lines)), SectionsBefore(lines, i), SweepAt(lines, i).value.number)
  {
    SameAsSection(lines, i, "");
  }

  lemma SectionIsSweep(lines: seq<string>, j: nat, n: nat) returns (i: nat)
    requires IsNumbered(SweepNumbers(Cut(lines)), j, n)
    ensures i < |lines| && SweepAt(lines, i).Some? && SweepAt(lines, i).value.number == n
    ensures SectionsBefore(lines, i) == j
  {
    i := HeadingOfSection(lines, j);
    SameAsSection(lines, i, "");
  }

  lemma SweepsCorrespond(lines: seq<string>, at: seq<Option<Sweep>>, before: seq<nat>, numbers: seq<Option<nat>>)
    requires at == SweepsAt(lines) && before == AllBefore(lines) && numbers == SweepNumbers(Cut(lines))
    ensures Correspond(at, before, numbers)
  {
    forall i | 0 <= i < |at| && at[i].Some? ensures IsNumbered(numbers, before[i], at[i].value.number) {
      SweepIsSection(lines, i);
    }
    forall j: nat, n: nat | IsNumbered(numbers, j, n)
      ensures exists i :: 0 <= i < |at| && at[i].Some? && before[i] == j && at[i].value.number == n {
      var i := SectionIsSweep(lines, j, n);
      assert at[i].Some? && before[i] == j;
    }
    forall i, j | 0 <= i <= j < |at| && at[i].Some? ensures before[i] <= before[j] {
      LaterHeading(lines, i, j);
    }
  }

  /** The sweep that a section is. */
  lemma SweepOfSection(sweeps: seq<Sweep>, at: seq<Option<Sweep>>, before: seq<nat>, numbers: seq<Option<nat>>, j: nat,
                       n: nat) returns (m: nat)
    requires |at| == |before| && Lists(sweeps, at, |at|) && Correspond(at, before, numbers)
    requires IsNumbered(numbers, j, n)
    ensures m < |sweeps| && sweeps[m].number == n && at[sweeps[m].start].Some? && before[sweeps[m].start] == j
  {
    var i :| 0 <= i < |at| && at[i].Some? && before[i] == j && at[i].value.number == n;
    assert HasStart(sweeps, i);
    m :| 0 <= m < |sweeps| && sweeps[m].start == i;
  }

  lemma NewestOfSections(sweeps: seq<Sweep>, at: seq<Option<Sweep>>, before: seq<nat>, numbers: seq<Option<nat>>,
                         newest: nat)
    requires |at| == |before| && Lists(sweeps, at, |at|) && Correspond(at, before, numbers)
    requires sweeps != [] && newest == NewestSweep(sweeps)
    ensures at[sweeps[newest].start].Some?
    ensures IsNewest(numbers, before[sweeps[newest].start], sweeps[newest].number)
  {
    forall j: nat, n: nat | IsNumbered(numbers, j, n)
      ensures n <= sweeps[newest].number && (j < before[sweeps[newest].start] ==> n < sweeps[newest].number) {
      var m := SweepOfSection(sweeps, at, before, numbers, j, n);
      if newest <= m {
        assert before[sweeps[newest].start] <= before[sweeps[m].start];
      }
    }
  }

  lemma NoSweepIsSection(sweeps: seq<Sweep>, at: seq<Option<Sweep>>, before: seq<nat>, numbers: seq<Option<nat>>)
    requires |at| == |before| && Lists(sweeps, at, |at|) && Correspond(at, before, numbers) && sweeps == []
    ensures !SomeSweep(numbers)
  {
    forall j: nat, n: nat ensures !IsNumbered(numbers, j, n) {
      if IsNumbered(numbers, j, n) {
        var m := SweepOfSection(sweeps, at, before, numbers, j, n);
      }
    }
  }

  lemma OwnGoesRight(lines: seq<string>, night: string, section: seq<string>, sections: seq<seq<string>>, at: nat)
    requires IsFirstOwn(lines, at, night) && sections == Cut(lines)
    ensures SomeOfNight(sections, night) && IsNightsOwn(sections, night, SectionsBefore(lines, at))
    ensures NumberedRight(sections, night, NumberFor(lines, night))
  {
    OwnIsNights(lines, night, at);
    SameAsSection(lines, at, night);
    FirstOwnIsReplaced(lines, night, section, at);
  }

  /** Without the night's own, its section goes behind the newest sweep. */
  lemma NewGoesRight(lines: seq<string>, night: string, sweeps: seq<Sweep>, sections: seq<seq<string>>)
    requires sweeps == Sweeps(lines) && sections == Cut(lines) && OwnSweep(sweeps, night).None? && sweeps != []
    ensures !SomeOfNight(sections, night) && SomeSweep(SweepNumbers(sections))
    ensures NumberedRight(sections, night, NumberFor(lines, night))
    ensures var start := sweeps[NewestSweep(sweeps)].start;
            && IsNewest(SweepNumbers(sections), SectionsBefore(lines, start), sweeps[NewestSweep(sweeps)].number)
            && SectionsBefore(lines, SectionEnd(lines, start)) == SectionsBefore(lines, start) + 1
  {
    OwnSweepIsFirst(lines, night);
    NoneIsNights(lines, night);
    var at, before, newest := SweepsAt(lines), AllBefore(lines), NewestSweep(sweeps);
    SweepsAreListed(at, |lines|);
    SweepsCorrespond(lines, at, before, SweepNumbers(sections));
    NewestOfSections(sweeps, at, before, SweepNumbers(sections), newest);
    SectionOfHeading(lines, sweeps[newest].start);
  }

  /** Without any sweep it goes behind all sections. */
  lemma FirstGoesRight(lines: seq<string>, night: string, sweeps: seq<Sweep>, sections: seq<seq<string>>)
    requires sweeps == Sweeps(lines) && sections == Cut(lines) && sweeps == []
    ensures !SomeOfNight(sections, night) && !SomeSweep(SweepNumbers(sections)) && NumberFor(lines, night) == 1
  {
    OwnSweepIsFirst(lines, night);
    NoneIsNights(lines, night);
    var at, before := SweepsAt(lines), AllBefore(lines);
    SweepsAreListed(at, |lines|);
    SweepsCorrespond(lines, at, before, SweepNumbers(sections));
    NoSweepIsSection(sweeps, at, before, SweepNumbers(sections));
  }

  ghost predicate IsNewestOfAny(numbers: seq<Option<nat>>, k: nat) { exists n: nat :: IsNewest(numbers, k, n) }

  /** `k` is where the night's section belongs, `own` whether in place of one. */
  ghost predicate Belongs(sections: seq<seq<string>>, night: string, k: nat, own: bool) {
    && own == SomeOfNight(sections, night)
    && (own ==> IsNightsOwn(sections, night, k))
    && (!own && SomeSweep(SweepNumbers(sections)) ==> k > 0 && IsNewestOfAny(SweepNumbers(sections), k - 1))
    && (!own && !SomeSweep(SweepNumbers(sections)) ==> k == |sections|)
  }

  lemma PutThere(sections: seq<seq<string>>, merged: seq<seq<string>>, night: string, section: seq<string>, k: nat,
                 own: bool)
    requires Belongs(sections, night, k, own)
    requires HasPut(Tidy(sections), Tidy(merged), Trim(section), k, own)
    ensures PutRight(sections, merged, night, section)
  {
    if !own && SomeSweep(SweepNumbers(sections)) {
      var n: nat :| IsNewest(SweepNumbers(sections), k - 1, n);
      assert HasPut(Tidy(sections), Tidy(merged), Trim(section), (k - 1) + 1, false);
    }
  }

  lemma PlaceBelongs(lines: seq<string>, night: string, section: seq<string>, sweeps: seq<Sweep>,
                     sections: seq<seq<string>>)
    requires sweeps == Sweeps(lines) && sections == Cut(lines)
    ensures Belongs(sections, night, SectionsBefore(lines, Place(lines, sweeps, night)), OwnSweep(sweeps, night).Some?)
    ensures NumberedRight(sections, night, NumberFor(lines, night))
  {
    if OwnSweep(sweeps, night).Some? {
      OwnSweepIsFirst(lines, night);
      OwnGoesRight(lines, night, section, sections, sweeps[OwnSweep(sweeps, night).value].start);
    } else if sweeps == [] {
      FirstGoesRight(lines, night, sweeps, sections);
      assert lines[..|lines|] == lines;
    } else {
      NewGoesRight(lines, night, sweeps, sections);
    }
  }

  /** A merge puts the night's section in place of its own, which is the first with its marker; without one, right
      behind the newest sweep, which is the first with the highest number; without any sweep behind all sections. Its
      number follows the same rule. */
  lemma GoesWhereItBelongs(lines: seq<string>, night: string, section: seq<string>)
    requires lines != [] && IsSectionOf(section, night)
    ensures PutRight(Cut(lines), Cut(Merged(lines, night, section)), night, section)
    ensures NumberedRight(Cut(lines), night, NumberFor(lines, night))
  {
    var sweeps, merged := Sweeps(lines), Merged(lines, night, section);
    var k := SectionsBefore(lines, Place(lines, sweeps, night));
    OthersStay(lines, night, section);
    PlaceBelongs(lines, night, section, sweeps, Cut(lines));
    PutThere(Cut(lines), Cut(merged), night, section, k, OwnSweep(sweeps, night).Some?);
  }
}
