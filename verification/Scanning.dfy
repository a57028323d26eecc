/** Two scanners over a KiCad file's text that must agree: `block_end`, character by character, and
    `top_level`, token by token. */
module Scanning {
  import opened Options
  import opened Sequences

  /** Where a quoted string whose inside begins at `i` ends, as the regular expressions match it: a backslash
      takes the next character with it, but a line break; None where no quote closes it. */
  function StringEnd(text: string, i: nat): (end: Option<nat>)
    requires i <= |text|
    ensures end.Some? ==> i < end.value <= |text| && text[end.value - 1] == '"'
    decreases |text| - i
  {
    if i == |text| then None
    else if text[i] == '"' then Some(i + 1)
    else if text[i] == '\\' then
      (if i + 1 < |text| && text[i + 1] != '\n' then StringEnd(text, i + 2) else None)
    else StringEnd(text, i + 1)
  }

  /** What stands between the quotes of a string: no quote and no backslash, but for backslashes with a character after
      each, which is no line break. */
  predicate IsInside(s: string) {
    || s == ""
    || (s[0] != '"' && s[0] != '\\' && IsInside(s[1..]))
    || (|s| > 1 && s[0] == '\\' && s[1] != '\n' && IsInside(s[2..]))
  }

  /** A string ends behind the quote that such an inside comes before. */
  lemma {:induction false} StringEndExactly(text: string, i: nat, end: nat)
    requires i <= |text|
    ensures StringEnd(text, i) == Some(end) <==>
            i < end <= |text| && text[end - 1] == '"' && IsInside(text[i..end - 1])
    decreases |text| - i
  {
    if i < end <= |text| {
      var inside := text[i..end - 1];
      if inside != "" {
        assert inside[0] == text[i];
        if text[i] == '\\' && |inside| > 1 {
          assert inside[1] == text[i + 1] && inside[2..] == text[i + 2..end - 1];
          StringEndExactly(text, i + 2, end);
        } else if text[i] != '\\' && text[i] != '"' {
          assert inside[1..] == text[i + 1..end - 1];
          StringEndExactly(text, i + 1, end);
        }
      }
    }
  }

  /** From `i` on every quote opens a string that closes. */
  predicate Closed(text: string, i: nat)
    requires i <= |text|
    decreases |text| - i
  {
    if i == |text| then true
    else if text[i] == '"' then StringEnd(text, i + 1).Some? && Closed(text, StringEnd(text, i + 1).value)
    else Closed(text, i + 1)
  }

  // --- Character by character ---------------------------------------------------------

  /** `block_end` from its state at `i`. */
  function BlockScan(text: string, i: nat, depth: int, quoted: bool, escaped: bool): Option<nat>
    requires i <= |text|
    decreases |text| - i
  {
    if i == |text| then None
    else
      var c := text[i];
      if escaped then BlockScan(text, i + 1, depth, quoted, false)
      else if quoted && c == '\\' then BlockScan(text, i + 1, depth, quoted, true)
      else if c == '"' then BlockScan(text, i + 1, depth, !quoted, false)
      else if !quoted && c == '(' then BlockScan(text, i + 1, depth + 1, quoted, false)
      else if !quoted && c == ')' then
        (if depth == 1 then Some(i + 1) else BlockScan(text, i + 1, depth - 1, quoted, false))
      else BlockScan(text, i + 1, depth, quoted, false)
  }

  /** The end of the expression that begins at `start`; None for the source's ValueError. */
  method BlockEnd(text: string, start: nat) returns (end: Option<nat>)
    requires start <= |text|
    ensures end == BlockScan(text, start, 0, false, false)
    ensures Closed(text, start) ==> end == CloseOf(text, start, 0)
    ensures NoEscapedBreak(text) ==> end == ClosedCloseOf(text, start, 0)
  {
    if Closed(text, start) {
      ScannersAgreeFrom(text, start, 0);
    }
    if NoEscapedBreak(text) {
      ScanFindsClosed(text, start, 0);
    }
    var depth, quoted, escaped := 0, false, false;
    for index := start to |text|
      invariant BlockScan(text, index, depth, quoted, escaped) == BlockScan(text, start, 0, false, false)
    {
      var character := text[index];
      if escaped {
        escaped := false;
      } else if quoted && character == '\\' {
        escaped := true;
      } else if character == '"' {
        quoted := !quoted;
      } else if !quoted {
        if character == '(' {
          depth := depth + 1;
        } else if character == ')' {
          depth := depth - 1;
          if depth == 0 {
            return Some(index + 1);
          }
        }
      }
    }
    end := None;
  }

  // --- Token by token -----------------------------------------------------------------

  /** Where the token or character at `i` ends: a closed string is one token, an unclosed quote is skipped. */
  function TokenEnd(text: string, i: nat): (end: nat)
    requires i < |text|
    ensures i < end <= |text|
  {
    if text[i] == '"' && StringEnd(text, i + 1).Some? then StringEnd(text, i + 1).value else i + 1
  }

  /** Where the expression open at depth `depth` before token boundary `i` closes, by tokens. */
  function CloseOf(text: string, i: nat, depth: int): (end: Option<nat>)
    requires i <= |text|
    ensures end.Some? ==> i < end.value <= |text| && text[end.value - 1] == ')'
    decreases |text| - i
  {
    if i == |text| then None
    else if text[i] == '(' then CloseOf(text, i + 1, depth + 1)
    else if text[i] == ')' then (if depth == 1 then Some(i + 1) else CloseOf(text, i + 1, depth - 1))
    else CloseOf(text, TokenEnd(text, i), depth)
  }

  /** The starts of the root's children from token boundary `i` at `depth` on: the parentheses that open
      inside one other. */
  function ChildStarts(text: string, i: nat, depth: int): (starts: seq<nat>)
    requires i <= |text|
    ensures forall k :: 0 <= k < |starts| ==> i <= starts[k] < |text| && text[starts[k]] == '('
    decreases |text| - i
  {
    if i == |text| then []
    else if text[i] == '(' then
      var inside := ChildStarts(text, i + 1, depth + 1);
      if depth == 1 then [i] + inside else inside
    else if text[i] == ')' then ChildStarts(text, i + 1, depth - 1)
    else ChildStarts(text, TokenEnd(text, i), depth)
  }

  datatype Span = Span(start: nat, end: nat)

  /** The spans of those starts whose expressions close. */
  function SpansOf(text: string, starts: seq<nat>): seq<Span>
    requires forall k :: 0 <= k < |starts| ==> starts[k] < |text|
  {
    if starts == [] then []
    else
      var end, rest := CloseOf(text, starts[0], 0), SpansOf(text, starts[1..]);
      if end.Some? then [Span(starts[0], end.value)] + rest else rest
  }

  lemma {:induction false} SpansOfConcat(text: string, a: seq<nat>, b: seq<nat>)
    requires forall k :: 0 <= k < |a| ==> a[k] < |text|
    requires forall k :: 0 <= k < |b| ==> b[k] < |text|
    ensures SpansOf(text, a + b) == SpansOf(text, a) + SpansOf(text, b)
  {
    if a == [] {
      assert a + b == b;
    } else {
      assert (a + b)[1..] == a[1..] + b;
      SpansOfConcat(text, a[1..], b);
      var end := CloseOf(text, a[0], 0);
      if end.Some? {
        Regroup([Span(a[0], end.value)], SpansOf(text, a[1..]), SpansOf(text, b));
      }
    }
  }

  /** Inside a child no other child starts before it closes, and none ever when nothing closes it. */
  lemma {:induction false} NoChildInsideChild(text: string, i: nat, depth: int)
    requires i <= |text| && depth >= 2
    ensures var end := CloseOf(text, i, depth - 1);
            ChildStarts(text, i, depth) == if end.Some? then ChildStarts(text, end.value, 1) else []
    decreases |text| - i
  {
    if i < |text| {
      if text[i] == '(' {
        NoChildInsideChild(text, i + 1, depth + 1);
      } else if text[i] == ')' {
        if depth > 2 {
          NoChildInsideChild(text, i + 1, depth - 1);
        }
      } else {
        NoChildInsideChild(text, TokenEnd(text, i), depth);
      }
    }
  }

  /** The span of the child open at `i`, when it closes. */
  function Pending(text: string, start: nat, i: nat, depth: int): seq<Span>
    requires i <= |text|
  {
    if depth < 2 || CloseOf(text, i, depth - 1).None? then []
    else [Span(start, CloseOf(text, i, depth - 1).value)]
  }

  /** The spans still to come from token boundary `i`, the child open there first. */
  function Coming(text: string, start: nat, i: nat, depth: int): seq<Span>
    requires i <= |text|
  {
    Pending(text, start, i, depth) + SpansOf(text, ChildStarts(text, i, depth))
  }

  lemma NextOpens(text: string, start: nat, i: nat, depth: int)
    requires i < |text| && text[i] == '('
    ensures Coming(text, start, i, depth) == Coming(text, if depth == 1 then i else start, i + 1, depth + 1)
  {
    if depth == 1 {
      OpeningChild(text, i);
      assert Pending(text, start, i, 1) == [];
    }
  }

  /** The span that the character at `i` ends. */
  function Ended(start: nat, i: nat, depth: int): seq<Span> { if depth == 2 then [Span(start, i + 1)] else [] }

  lemma NextCloses(text: string, start: nat, i: nat, depth: int)
    requires i < |text| && text[i] == ')'
    ensures Coming(text, start, i, depth) == Ended(start, i, depth) + Coming(text, start, i + 1, depth - 1)
  {
  }

  lemma NextGoesOn(text: string, start: nat, i: nat, depth: int)
    requires i < |text| && text[i] != '(' && text[i] != ')'
    ensures Coming(text, start, i, depth) == Coming(text, start, TokenEnd(text, i), depth)
  {
  }

  /** The spans of the root's children: one for every parenthesis that opens inside one other and closes. */
  method TopLevel(text: string) returns (spans: seq<Span>)
    ensures spans == SpansOf(text, ChildStarts(text, 0, 0))
  {
    spans := [];
    var depth, start, i := 0, 0, 0;
    ghost var all := SpansOf(text, ChildStarts(text, 0, 0));
    while i < |text|
      invariant 0 <= i <= |text|
      invariant spans + Coming(text, start, i, depth) == all
      decreases |text| - i
    {
      if text[i] == '(' {
        NextOpens(text, start, i, depth);
        if depth == 1 {
          start := i;
        }
        depth := depth + 1;
        i := i + 1;
      } else if text[i] == ')' {
        NextCloses(text, start, i, depth);
        Regroup(spans, Ended(start, i, depth), Coming(text, start, i + 1, depth - 1));
        if depth == 2 {
          spans := spans + [Span(start, i + 1)];
        }
        depth := depth - 1;
        i := i + 1;
      } else {
        NextGoesOn(text, start, i, depth);
        i := TokenEnd(text, i);
      }
    }
  }

  lemma OpeningChild(text: string, i: nat)
    requires i < |text| && text[i] == '('
    ensures CloseOf(text, i, 0) == CloseOf(text, i + 1, 1)
    ensures SpansOf(text, ChildStarts(text, i, 1))
            == Pending(text, i, i + 1, 2) + SpansOf(text, ChildStarts(text, i + 1, 2))
  {
    SpansOfConcat(text, [i], ChildStarts(text, i + 1, 2));
    assert [i][1..] == [];
  }

  // --- What the spans are -------------------------------------------------------------

  predicate Disjoint(spans: seq<Span>) {
    && (forall k :: 0 <= k < |spans| ==> spans[k].start < spans[k].end)
    && (forall a, b :: 0 <= a < b < |spans| ==> spans[a].end <= spans[b].start)
  }

  lemma {:induction false} SpanStarts(text: string, starts: seq<nat>, from: nat)
    requires forall k :: 0 <= k < |starts| ==> from <= starts[k] < |text|
    ensures forall k :: 0 <= k < |SpansOf(text, starts)| ==>
              var span := SpansOf(text, starts)[k];
              from <= span.start < span.end <= |text| && span.start in starts
                && CloseOf(text, span.start, 0) == Some(span.end)
  {
    if starts != [] {
      SpanStarts(text, starts[1..], from);
    }
  }

  /** The spans from a child's start on: its own and those after it, or none when nothing closes it. */
  lemma FirstSpan(text: string, i: nat)
    requires i < |text| && text[i] == '('
    ensures var end := CloseOf(text, i, 0);
            SpansOf(text, ChildStarts(text, i, 1))
            == if end.Some? then [Span(i, end.value)] + SpansOf(text, ChildStarts(text, end.value, 1)) else []
  {
    OpeningChild(text, i);
    NoChildInsideChild(text, i + 1, 2);
    assert SpansOf(text, []) == [];
  }

  lemma DisjointBehind(first: Span, rest: seq<Span>)
    requires Disjoint(rest) && first.start < first.end && forall k :: 0 <= k < |rest| ==> first.end <= rest[k].start
    ensures Disjoint([first] + rest)
  {
  }

  lemma DisjointFromChild(text: string, i: nat)
    requires i < |text| && text[i] == '('
    requires var end := CloseOf(text, i, 0); end.Some? ==> Disjoint(SpansOf(text, ChildStarts(text, end.value, 1)))
    ensures Disjoint(SpansOf(text, ChildStarts(text, i, 1)))
  {
    FirstSpan(text, i);
    var end := CloseOf(text, i, 0);
    if end.Some? {
      SpanStarts(text, ChildStarts(text, end.value, 1), end.value);
      DisjointBehind(Span(i, end.value), SpansOf(text, ChildStarts(text, end.value, 1)));
    }
  }

  /** The spans follow each other without overlap. */
  lemma {:induction false} SpansAreDisjoint(text: string, i: nat, depth: int)
    requires i <= |text|
    ensures Disjoint(SpansOf(text, ChildStarts(text, i, depth)))
    decreases |text| - i
  {
    if i < |text| {
      if text[i] == '(' && depth == 1 {
        var end := CloseOf(text, i, 0);
        if end.Some? {
          SpansAreDisjoint(text, end.value, 1);
        }
        DisjointFromChild(text, i);
      } else if text[i] == '(' {
        SpansAreDisjoint(text, i + 1, depth + 1);
      } else if text[i] == ')' {
        SpansAreDisjoint(text, i + 1, depth - 1);
      } else {
        SpansAreDisjoint(text, TokenEnd(text, i), depth);
      }
    }
  }

  // --- The two scanners agree ---------------------------------------------------------

  /** Through a closed string the character scanner keeps its depth. */
  lemma {:induction false} ThroughString(text: string, i: nat, depth: int)
    requires i <= |text| && StringEnd(text, i).Some?
    ensures BlockScan(text, i, depth, true, false) == BlockScan(text, StringEnd(text, i).value, depth, false, false)
    decreases |text| - i
  {
    if text[i] == '"' {
    } else if text[i] == '\\' {
      ThroughString(text, i + 2, depth);
    } else {
      ThroughString(text, i + 1, depth);
    }
  }

  /** Where every string closes, scanning by characters finds the end that scanning by tokens finds. */
  lemma {:induction false} ScannersAgreeFrom(text: string, i: nat, depth: int)
    requires i <= |text| && Closed(text, i)
    ensures BlockScan(text, i, depth, false, false) == CloseOf(text, i, depth)
    decreases |text| - i
  {
    if i < |text| {
      if text[i] == '"' {
        ThroughString(text, i + 1, depth);
        ScannersAgreeFrom(text, StringEnd(text, i + 1).value, depth);
      } else if text[i] == '(' {
        ScannersAgreeFrom(text, i + 1, depth + 1);
      } else if text[i] == ')' {
        ScannersAgreeFrom(text, i + 1, depth - 1);
      } else {
        ScannersAgreeFrom(text, i + 1, depth);
      }
    }
  }

  // --- Where a string stays open ------------------------------------------------------

  /** The quotes that the tokens meet from `i` on and before `end` open strings that close. */
  predicate ClosedTo(text: string, i: nat, end: nat)
    requires i <= |text|
    decreases |text| - i
  {
    if i >= end || i == |text| then true
    else if text[i] == '"' then StringEnd(text, i + 1).Some? && ClosedTo(text, StringEnd(text, i + 1).value, end)
    else ClosedTo(text, i + 1, end)
  }

  /** Where the tokens close the expression, when no string stays open before. */
  function ClosedCloseOf(text: string, i: nat, depth: int): Option<nat>
    requires i <= |text|
  {
    var end := CloseOf(text, i, depth);
    if end.Some? && ClosedTo(text, i, end.value) then end else None
  }

  /** No backslash stands before a line break: there the tokens end a string that the characters go on with. */
  predicate NoEscapedBreak(text: string) {
    forall i :: 0 <= i < |text| - 1 && text[i] == '\\' ==> text[i + 1] != '\n'
  }

  /** In a string that stays open the character scanner finds nothing. */
  lemma {:induction false} OpenStringEndsNothing(text: string, i: nat, depth: int)
    requires NoEscapedBreak(text) && i <= |text| && StringEnd(text, i).None?
    ensures BlockScan(text, i, depth, true, false) == None
    decreases |text| - i
  {
    if i < |text| {
      if text[i] == '\\' {
        if i + 1 < |text| {
          OpenStringEndsNothing(text, i + 2, depth);
        }
      } else {
        OpenStringEndsNothing(text, i + 1, depth);
      }
    }
  }

  /** The character scanner finds the end that the tokens find when no string stays open before it, and else none. */
  lemma {:induction false} ScanFindsClosed(text: string, i: nat, depth: int)
    requires NoEscapedBreak(text) && i <= |text|
    ensures BlockScan(text, i, depth, false, false) == ClosedCloseOf(text, i, depth)
    decreases |text| - i
  {
    if i < |text| {
      if text[i] == '"' {
        var end := StringEnd(text, i + 1);
        if end.Some? {
          ThroughString(text, i + 1, depth);
          ScanFindsClosed(text, end.value, depth);
        } else {
          OpenStringEndsNothing(text, i + 1, depth);
        }
      } else if text[i] == '(' {
        ScanFindsClosed(text, i + 1, depth + 1);
      } else if text[i] == ')' {
        assert ClosedTo(text, i + 1, i + 1);
        ScanFindsClosed(text, i + 1, depth - 1);
      } else {
        ScanFindsClosed(text, i + 1, depth);
      }
    }
  }

  /** From each child's start the two scanners find the same end if and only if the tokens find none or meet no
      string before it that stays open. */
  lemma ScannersAgreeExactly(text: string)
    requires NoEscapedBreak(text)
    ensures forall s :: s in ChildStarts(text, 0, 0) ==>
              && s < |text|
              && (BlockScan(text, s, 0, false, false) == CloseOf(text, s, 0) <==>
                  CloseOf(text, s, 0).None? || ClosedTo(text, s, CloseOf(text, s, 0).value))
  {
    forall s | s in ChildStarts(text, 0, 0)
      ensures s < |text| && BlockScan(text, s, 0, false, false) == ClosedCloseOf(text, s, 0) {
      ScanFindsClosed(text, s, 0);
    }
  }

  lemma {:induction false} StartsAreBoundaries(text: string, i: nat, depth: int, s: nat)
    requires i <= |text| && Closed(text, i) && s in ChildStarts(text, i, depth)
    ensures Closed(text, s)
    decreases |text| - i
  {
    if i < |text| {
      if text[i] == '(' {
        if s in ChildStarts(text, i + 1, depth + 1) {
          StartsAreBoundaries(text, i + 1, depth + 1, s);
        }
      } else if text[i] == ')' {
        StartsAreBoundaries(text, i + 1, depth - 1, s);
      } else {
        StartsAreBoundaries(text, TokenEnd(text, i), depth, s);
      }
    }
  }

  /** On any text whose strings close, balanced or not, the spans of `top_level` are disjoint and increasing,
      each begins with the parenthesis and ends where `block_end` from its start ends; and from a child's
      start `block_end` ends nowhere else. */
  lemma ScannersAgree(text: string)
    requires Closed(text, 0)
    ensures var starts := ChildStarts(text, 0, 0);
            var spans := SpansOf(text, starts);
            && Disjoint(spans)
            && (forall k :: 0 <= k < |spans| ==>
                  && spans[k].end <= |text| && text[spans[k].start] == '(' && text[spans[k].end - 1] == ')'
                  && BlockScan(text, spans[k].start, 0, false, false) == Some(spans[k].end))
            && (forall s :: s in starts ==> BlockScan(text, s, 0, false, false) == CloseOf(text, s, 0))
  {
    var starts := ChildStarts(text, 0, 0);
    SpansAreDisjoint(text, 0, 0);
    assert forall k :: 0 <= k < |starts| ==> starts[k] in starts;
    SpanStarts(text, starts, 0);
    forall s | s in starts ensures BlockScan(text, s, 0, false, false) == CloseOf(text, s, 0) {
      StartsAreBoundaries(text, 0, 0, s);
      ScannersAgreeFrom(text, s, 0);
    }
    assert text == text[..];
  }

  /** One of the texts in which they differ. */
  lemma OpenQuoteDisagrees()
    ensures var text := "((\"))";
            && SpansOf(text, ChildStarts(text, 0, 0)) == [Span(1, 4)]
            && BlockScan(text, 1, 0, false, false).None?
  {
    var text := "((\"))";
    assert StringEnd(text, 3) == None by {
      assert StringEnd(text, 5) == None;
      assert StringEnd(text, 4) == None;
    }
    assert TokenEnd(text, 2) == 3;
    assert ChildStarts(text, 5, 0) == [];
    assert ChildStarts(text, 4, 1) == [];
    assert ChildStarts(text, 3, 2) == [];
    assert ChildStarts(text, 2, 2) == [];
    assert ChildStarts(text, 1, 1) == [1];
    assert ChildStarts(text, 0, 0) == [1];
    assert CloseOf(text, 3, 1) == Some(4);
    assert CloseOf(text, 2, 1) == Some(4);
    assert CloseOf(text, 1, 0) == Some(4);
    assert SpansOf(text, [1]) == [Span(1, 4)];
    assert !ClosedTo(text, 2, 4);
    ScanFindsClosed(text, 1, 0);
  }
}
