/** The lines of the sweeps' sections: headings with a number, and markers with a night. */
module Markers {
  import opened Options
  import opened Texts

  // --- Words ------------------------------------------------------------------------------------

  const HEADING := "## "

  predicate IsHeading(line: string) { StartsWith(line, HEADING) }

  /** How many digits `s` starts with. */
  function Digits(s: string): (n: nat)
    ensures n <= |s| && forall i :: 0 <= i < n ==> IsDigit(s[i])
  {
    if s == [] || !IsDigit(s[0]) then 0 else 1 + Digits(s[1..])
  }

  const SWEEP_TITLE := HEADING + "Layout sweep v"

  // --- Headings and markers ---------------------------------------------------------------------

  /** The number of a sweep's heading: `## Layout sweep v<number> (...)`. */
  function SweepNumber(line: string): (number: Option<nat>)
    ensures number.Some? ==> IsHeading(line)
  {
    if !IsHeading(line) || !StartsWith(line, SWEEP_TITLE) then None
    else
      var rest := line[|SWEEP_TITLE|..];
      var n := Digits(rest);
      if n > 0 && StartsWith(rest[n..], " (") && ')' in rest[n + 2..] then Some(Number(rest[..n])) else None
  }

  /** How many characters `s` has before its first space. */
  function Word(s: string): (n: nat)
    ensures n <= |s|
  {
    if s == [] || IsSpace(s[0]) then 0 else 1 + Word(s[1..])
  }

  const MARKER_NIGHT := "<!-- nightly-sweep night="
  const MARKER_SWEEP := " sweep="
  const MARKER_MAIN := " main="
  const MARKER_END := " -->"

  /** A word and what follows it, when `start` comes first. */
  function Field(s: string, start: string): Option<(string, string)> {
    if !StartsWith(s, start) then None
    else
      var n := Word(s[|start|..]);
      if n == 0 then None else Some((s[|start|..][..n], s[|start|..][n..]))
  }

  function MarkerHere(s: string): Option<string> {
    var night := Field(s, MARKER_NIGHT);
    if night.None? then None
    else
      var sweep := Field(night.value.1, MARKER_SWEEP);
      if sweep.None? then None
      else
        var main := Field(sweep.value.1, MARKER_MAIN);
        if main.Some? && StartsWith(main.value.1, MARKER_END) then Some(night.value.0) else None
  }

  /** The nights of the markers that stand at the places of a line. */
  function MarkersAt(line: string): (nights: seq<Option<string>>)
    ensures |nights| == |line| && forall i :: 0 <= i < |line| ==> nights[i] == MarkerHere(line[i..])
  {
    seq(|line|, i requires 0 <= i < |line| => MarkerHere(line[i..]))
  }

  function FirstSome<T>(xs: seq<Option<T>>): (x: Option<T>) {
    if xs == [] then None else if xs[0].Some? then xs[0] else FirstSome(xs[1..])
  }

  /** The night of the first marker in a line. */
  function MarkerOf(line: string): Option<string> { FirstSome(MarkersAt(line)) }

  /** The night of the first marker in some lines. */
  function MarkerIn(lines: seq<string>): Option<string> {
    if lines == [] then None
    else if MarkerOf(lines[0]).Some? then MarkerOf(lines[0]) else MarkerIn(lines[1..])
  }

  // --- What they read ---------------------------------------------------------------------------

  predicate IsNumeral(digits: string) { digits != "" && forall i :: 0 <= i < |digits| ==> digits[i] in DIGITS }

  predicate IsWord(word: string) { word != "" && forall i :: 0 <= i < |word| ==> !IsSpace(word[i]) }

  /** A sweep's heading with this numeral. */
  predicate HasNumeral(line: string, digits: string, text: string) {
    line == SWEEP_TITLE + digits + " (" + text && IsNumeral(digits) && ')' in text
  }

  lemma {:induction false} DigitsOfNumeral(digits: string, rest: string)
    requires forall i :: 0 <= i < |digits| ==> IsDigit(digits[i])
    requires rest == "" || !IsDigit(rest[0])
    ensures Digits(digits + rest) == |digits|
  {
    if digits == "" {
      assert digits + rest == rest;
    } else {
      assert (digits + rest)[1..] == digits[1..] + rest;
      DigitsOfNumeral(digits[1..], rest);
    }
  }

  lemma NumeralExactly(digits: string)
    ensures IsNumeral(digits) <==> digits != "" && forall i :: 0 <= i < |digits| ==> IsDigit(digits[i])
  {
    forall i | 0 <= i < |digits| ensures IsDigit(digits[i]) <==> digits[i] in DIGITS {
      DigitExactly(digits[i]);
    }
  }

  lemma NumeralIsRead(line: string, digits: string, text: string)
    requires HasNumeral(line, digits, text)
    ensures SweepNumber(line) == Some(Number(digits))
  {
    TitleStarts(line, digits + " (" + text);
    NumeralExactly(digits);
    DigitsOfNumeral(digits, " (" + text);
    assert digits + " (" + text == digits + (" (" + text);
    assert (digits + " (" + text)[|digits| + 2..] == text;
  }

  lemma ReadIsNumeral(line: string) returns (digits: string, text: string)
    requires SweepNumber(line).Some?
    ensures HasNumeral(line, digits, text)
  {
    var rest := line[|SWEEP_TITLE|..];
    digits, text := rest[..Digits(rest)], rest[Digits(rest) + 2..];
    assert rest == digits + " (" + text;
    assert line == SWEEP_TITLE + rest == SWEEP_TITLE + digits + " (" + text;
    NumeralExactly(digits);
  }

  /** A line heads a sweep if and only if it is the title with a numeral and something in parentheses; the sweep has the
      numeral's number. */
  lemma NumberOfHeading(line: string)
    ensures SweepNumber(line).Some? <==> exists digits, text :: HasNumeral(line, digits, text)
    ensures forall digits, text :: HasNumeral(line, digits, text) ==> SweepNumber(line) == Some(Number(digits))
  {
    forall digits, text | HasNumeral(line, digits, text) ensures SweepNumber(line) == Some(Number(digits)) {
      NumeralIsRead(line, digits, text);
    }
    if SweepNumber(line).Some? {
      var digits, text := ReadIsNumeral(line);
    }
  }

  lemma TitleStarts(line: string, rest: string)
    requires line == SWEEP_TITLE + rest
    ensures StartsWith(line, SWEEP_TITLE) && line[|SWEEP_TITLE|..] == rest && IsHeading(line)
  {
    assert HEADING <= SWEEP_TITLE <= line;
  }

  lemma {:induction false} WordOf(word: string, rest: string)
    requires forall i :: 0 <= i < |word| ==> !IsSpace(word[i])
    requires rest == "" || IsSpace(rest[0])
    ensures Word(word + rest) == |word|
  {
    if word == "" {
      assert word + rest == rest;
    } else {
      assert (word + rest)[1..] == word[1..] + rest;
      WordOf(word[1..], rest);
    }
  }

  lemma {:induction false} WordEnds(s: string)
    ensures forall i :: 0 <= i < Word(s) ==> !IsSpace(s[i])
    ensures Word(s) < |s| ==> IsSpace(s[Word(s)])
  {
    if s != "" && !IsSpace(s[0]) {
      WordEnds(s[1..]);
      assert forall i :: 0 < i < Word(s) ==> s[i] == s[1..][i - 1];
    }
  }

  predicate IsField(s: string, start: string, word: string, rest: string) {
    s == start + word + rest && IsWord(word) && (rest == "" || IsSpace(rest[0]))
  }

  lemma FieldExactly(s: string, start: string, word: string, rest: string)
    ensures Field(s, start) == Some((word, rest)) <==> IsField(s, start, word, rest)
  {
    if IsField(s, start, word, rest) {
      assert s[..|start|] == start && s[|start|..] == word + rest;
      WordOf(word, rest);
    }
    if Field(s, start) == Some((word, rest)) {
      WordEnds(s[|start|..]);
      assert s == start + s[|start|..];
    }
  }

  /** A marker with this night, and what follows it. */
  predicate Marks(s: string, night: string, sweep: string, main: string, rest: string) {
    && s == MARKER_NIGHT + night + MARKER_SWEEP + sweep + MARKER_MAIN + main + MARKER_END + rest
    && IsWord(night) && IsWord(sweep) && IsWord(main)
  }

  lemma MarkedIsRead(s: string, night: string, sweep: string, main: string, rest: string)
    requires Marks(s, night, sweep, main, rest)
    ensures MarkerHere(s) == Some(night)
  {
    var third := MARKER_END + rest;
    var second := MARKER_MAIN + main + third;
    var first := MARKER_SWEEP + sweep + second;
    assert s == MARKER_NIGHT + night + first;
    FieldExactly(s, MARKER_NIGHT, night, first);
    FieldExactly(first, MARKER_SWEEP, sweep, second);
    FieldExactly(second, MARKER_MAIN, main, third);
    assert third[..|MARKER_END|] == MARKER_END;
  }

  lemma ReadIsMarked(s: string, night: string) returns (sweep: string, main: string, rest: string)
    requires MarkerHere(s) == Some(night)
    ensures Marks(s, night, sweep, main, rest)
  {
    var first := Field(s, MARKER_NIGHT).value.1;
    var (word, second) := Field(first, MARKER_SWEEP).value;
    var (last, third) := Field(second, MARKER_MAIN).value;
    sweep, main, rest := word, last, third[|MARKER_END|..];
    FieldExactly(s, MARKER_NIGHT, night, first);
    FieldExactly(first, MARKER_SWEEP, sweep, second);
    FieldExactly(second, MARKER_MAIN, main, third);
    StartsJoined(third, MARKER_END);
    Joined(s, MARKER_NIGHT + night, first, MARKER_SWEEP + sweep, second, MARKER_MAIN + main, third, MARKER_END, rest);
    MarkedInParts(s, MARKER_NIGHT, night, MARKER_SWEEP, sweep, MARKER_MAIN, main, MARKER_END, rest);
  }

  lemma StartsJoined(s: string, start: string)
    requires StartsWith(s, start)
    ensures s == start + s[|start|..]
  {
  }

  lemma MarkedInParts(s: string, a: string, b: string, c: string, d: string, e: string, f: string, g: string, h: string)
    requires s == (a + b) + (c + d) + (e + f) + g + h
    ensures s == a + b + c + d + e + f + g + h
  {
  }

  lemma Joined(s: string, a: string, first: string, b: string, second: string, c: string, third: string, d: string,
               rest: string)
    requires s == a + first && first == b + second && second == c + third && third == d + rest
    ensures s == a + b + c + d + rest
  {
  }

  /** A text starts with a marker if and only if it is one with three words and something that follows. */
  lemma MarkerExactly(s: string, night: string)
    ensures MarkerHere(s) == Some(night) <==> exists sweep, main, rest :: Marks(s, night, sweep, main, rest)
  {
    if MarkerHere(s) == Some(night) {
      var sweep, main, rest := ReadIsMarked(s, night);
    }
    if sweep, main, rest :| Marks(s, night, sweep, main, rest) {
      MarkedIsRead(s, night, sweep, main, rest);
    }
  }

  ghost predicate IsFirst<T>(xs: seq<Option<T>>, i: nat, x: T) {
    i < |xs| && xs[i] == Some(x) && forall j :: 0 <= j < i ==> xs[j].None?
  }

  lemma {:induction false} FirstIsFirst<T>(xs: seq<Option<T>>, x: T)
    ensures FirstSome(xs) == Some(x) <==> exists i: nat :: IsFirst(xs, i, x)
  {
    if xs != [] {
      if xs[0].Some? {
        assert xs[0] == Some(x) ==> IsFirst(xs, 0, x);
      } else {
        FirstIsFirst(xs[1..], x);
        if i: nat :| IsFirst(xs[1..], i, x) {
          assert IsFirst(xs, i + 1, x);
        }
        if i: nat :| IsFirst(xs, i, x) {
          assert i > 0 && IsFirst(xs[1..], i - 1, x);
        }
      }
    }
  }

  /** The first place in a line where a marker stands. */
  ghost predicate IsFirstMarker(line: string, i: nat, night: string) {
    && i < |line| && MarkerHere(line[i..]) == Some(night)
    && forall j :: 0 <= j < i ==> MarkerHere(line[j..]).None?
  }

  /** A line's marker is the first that stands in it. */
  lemma FirstInLine(line: string, night: string)
    ensures MarkerOf(line) == Some(night) <==> exists i: nat :: IsFirstMarker(line, i, night)
  {
    var nights := MarkersAt(line);
    FirstIsFirst(nights, night);
    if i: nat :| IsFirst(nights, i, night) {
      assert IsFirstMarker(line, i, night);
    }
    if i: nat :| IsFirstMarker(line, i, night) {
      assert IsFirst(nights, i, night);
    }
  }

  ghost predicate IsFirstMarked(lines: seq<string>, k: nat, night: string) {
    k < |lines| && MarkerOf(lines[k]) == Some(night) && forall j :: 0 <= j < k ==> MarkerOf(lines[j]).None?
  }

  function MarkersOf(lines: seq<string>): (nights: seq<Option<string>>)
    ensures |nights| == |lines| && forall i :: 0 <= i < |lines| ==> nights[i] == MarkerOf(lines[i])
  {
    seq(|lines|, i requires 0 <= i < |lines| => MarkerOf(lines[i]))
  }

  lemma {:induction false} FirstOfMarkers(lines: seq<string>)
    ensures MarkerIn(lines) == FirstSome(MarkersOf(lines))
  {
    if lines != [] {
      assert MarkersOf(lines)[1..] == MarkersOf(lines[1..]);
      FirstOfMarkers(lines[1..]);
    }
  }

  /** Some lines' marker is that of the first line with one. */
  lemma FirstInLines(lines: seq<string>, night: string)
    ensures MarkerIn(lines) == Some(night) <==> exists k: nat :: IsFirstMarked(lines, k, night)
  {
    var nights := MarkersOf(lines);
    FirstOfMarkers(lines);
    FirstIsFirst(nights, night);
    if k: nat :| IsFirst(nights, k, night) {
      assert IsFirstMarked(lines, k, night);
    }
    if k: nat :| IsFirstMarked(lines, k, night) {
      assert IsFirst(nights, k, night);
    }
  }

  lemma {:induction false} FirstBeforeNone<T>(xs: seq<Option<T>>, none: seq<Option<T>>)
    requires forall i :: 0 <= i < |none| ==> none[i].None?
    ensures FirstSome(xs + none) == FirstSome(xs)
  {
    if xs != [] {
      assert (xs + none)[1..] == xs[1..] + none;
      FirstBeforeNone(xs[1..], none);
    } else if none != [] {
      assert xs + none == none && xs + none[1..] == none[1..];
      FirstBeforeNone(xs, none[1..]);
    }
  }

  lemma BlanksHoldNoMarker(lines: seq<string>, blanks: seq<string>)
    requires forall i :: 0 <= i < |blanks| ==> blanks[i] == ""
    ensures MarkerIn(lines + blanks) == MarkerIn(lines)
  {
    assert forall i :: 0 <= i < |blanks| ==> MarkersAt(blanks[i]) == [];
    assert MarkersOf(lines + blanks) == MarkersOf(lines) + MarkersOf(blanks);
    FirstOfMarkers(lines);
    FirstOfMarkers(lines + blanks);
    FirstBeforeNone(MarkersOf(lines), MarkersOf(blanks));
  }
}
