/** The stack parser `sexp`: a printed tree parses back, and what it parses flattens to the tokens it read. */
module Expressions {
  import opened Options
  import opened Texts
  import opened Scanning

  datatype Tree = Atom(text: string) | Node(children: seq<Tree>)

  predicate IsDelimiter(c: char) { c == '(' || c == ')' || c == '"' || IsSpace(c) }

  /** Where the bare atom that goes on at `i` ends. */
  function AtomEnd(text: string, i: nat): (end: nat)
    requires i <= |text|
    ensures i <= end <= |text|
    decreases |text| - i
  {
    if i == |text| || IsDelimiter(text[i]) then i else AtomEnd(text, i + 1)
  }

  /** The tokens `SEXP_TOKEN` finds: closed strings, parentheses, bare atoms. */
  function Tokens(text: string): seq<string> {
    if text == "" then []
    else if text[0] == '"' then
      var end := StringEnd(text, 1);
      if end.Some? then [text[..end.value]] + Tokens(text[end.value..]) else Tokens(text[1..])
    else if text[0] == '(' || text[0] == ')' then [text[..1]] + Tokens(text[1..])
    else if IsSpace(text[0]) then Tokens(text[1..])
    else
      var end := AtomEnd(text, 1);
      [text[..end]] + Tokens(text[end..])
  }

  // --- The parser -----------------------------------------------------------------------

  /** One token on the stack of unfinished lists; None for the source's IndexError. */
  function Push(stack: seq<seq<Tree>>, token: string): Option<seq<seq<Tree>>>
    requires stack != []
  {
    var n := |stack|;
    if token == "(" then Some(stack + [[]])
    else if token == ")" then
      (if n == 1 then None
       else Some(stack[..n - 2] + [stack[n - 2] + [Node(stack[n - 1])]]))
    else Some(stack[..n - 1] + [stack[n - 1] + [Atom(token)]])
  }

  function PushAll(stack: seq<seq<Tree>>, tokens: seq<string>): (done: Option<seq<seq<Tree>>>)
    requires stack != []
    ensures done.Some? ==> done.value != []
    decreases |tokens|
  {
    if tokens == [] then Some(stack)
    else
      var next := Push(stack, tokens[0]);
      if next.None? then None else PushAll(next.value, tokens[1..])
  }

  /** The first expression of the tokens; None where the source raises IndexError. */
  function Parse(tokens: seq<string>): Option<Tree> {
    var stack := PushAll([[]], tokens);
    if stack.None? || stack.value[0] == [] then None else Some(stack.value[0][0])
  }

  method Sexp(text: string) returns (tree: Option<Tree>)
    ensures tree == Parse(Tokens(text))
    ensures tree.Some? ==> Flatten(tree.value) <= Tokens(text)
  {
    var stack: seq<seq<Tree>> := [[]];
    var tokens := Tokens(text);
    ParsedIsPrefix(tokens);
    for i := 0 to |tokens|
      invariant stack != []
      invariant PushAll(stack, tokens[i..]) == PushAll([[]], tokens)
    {
      var token := tokens[i];
      assert tokens[i..][0] == token && tokens[i..][1..] == tokens[i + 1..];
      ghost var before := stack;
      if token == "(" {
        stack := stack + [[]];
      } else if token == ")" {
        var done := stack[|stack| - 1];
        stack := stack[..|stack| - 1];
        if stack == [] {
          return None;
        }
        assert stack[..|stack| - 1] == before[..|before| - 2];
        stack := stack[..|stack| - 1] + [stack[|stack| - 1] + [Node(done)]];
      } else {
        stack := stack[..|stack| - 1] + [stack[|stack| - 1] + [Atom(token)]];
      }
    }
    tree := if stack[0] == [] then None else Some(stack[0][0]);
  }

  // --- Trees and their tokens -------------------------------------------------------------

  function Flatten(t: Tree): seq<string>
    decreases t, 1
  {
    match t
    case Atom(text) => [text]
    case Node(children) => ["("] + FlattenAll(children) + [")"]
  }

  function FlattenAll(ts: seq<Tree>): seq<string>
    decreases ts, 0
  {
    if ts == [] then [] else Flatten(ts[0]) + FlattenAll(ts[1..])
  }

  /** Every atom of the tree is a token by itself: a bare word, or a closed string. */
  predicate IsToken(a: string) {
    a != "" && a != "(" && a != ")"
    && (if a[0] == '"' then StringEnd(a, 1) == Some(|a|) else !IsSpace(a[0]) && AtomEnd(a, 0) == |a|)
  }

  /** A text without blanks, parentheses and quotes. */
  predicate IsBare(a: string) {
    a != "" && forall i :: 0 <= i < |a| ==> a[i] != '(' && a[i] != ')' && a[i] != '"' && !IsSpace(a[i])
  }

  predicate IsQuoted(a: string) { |a| > 1 && a[0] == '"' && a[|a| - 1] == '"' && IsInside(a[1..|a| - 1]) }

  lemma {:induction false} AtomEndsAt(text: string, i: nat)
    requires i <= |text|
    ensures forall k :: i <= k < AtomEnd(text, i) ==> !IsDelimiter(text[k])
    ensures AtomEnd(text, i) < |text| ==> IsDelimiter(text[AtomEnd(text, i)])
    decreases |text| - i
  {
    if i < |text| && !IsDelimiter(text[i]) {
      AtomEndsAt(text, i + 1);
    }
  }

  lemma TokenExactly(a: string)
    ensures IsToken(a) <==> IsBare(a) || IsQuoted(a)
  {
    if a != "" {
      AtomEndsAt(a, 0);
      StringEndExactly(a, 1, |a|);
    }
  }

  predicate IsPrintable(t: Tree)
    decreases t, 1
  {
    match t
    case Atom(text) => IsToken(text)
    case Node(children) => AllPrintable(children)
  }

  predicate AllPrintable(ts: seq<Tree>)
    decreases ts, 0
  {
    ts != [] ==> IsPrintable(ts[0]) && AllPrintable(ts[1..])
  }

  lemma {:induction false} FlattenAllOfConcat(a: seq<Tree>, b: seq<Tree>)
    ensures FlattenAll(a + b) == FlattenAll(a) + FlattenAll(b)
  {
    if a == [] {
      assert a + b == b;
    } else {
      assert (a + b)[1..] == a[1..] + b;
      FlattenAllOfConcat(a[1..], b);
    }
  }

  lemma {:induction false} PushAllOfConcat(stack: seq<seq<Tree>>, a: seq<string>, b: seq<string>)
    requires stack != []
    ensures PushAll(stack, a + b) == if PushAll(stack, a).None? then None else PushAll(PushAll(stack, a).value, b)
    decreases |a|
  {
    if a == [] {
      assert a + b == b;
    } else {
      assert (a + b)[1..] == a[1..] + b;
      var next := Push(stack, a[0]);
      if next.Some? {
        PushAllOfConcat(next.value, a[1..], b);
      }
    }
  }

  /** `stack` with `ts` at the end of its last list. */
  function Extended(stack: seq<seq<Tree>>, ts: seq<Tree>): seq<seq<Tree>>
    requires stack != []
  {
    stack[..|stack| - 1] + [stack[|stack| - 1] + ts]
  }

  lemma {:induction false} ParsesTree(stack: seq<seq<Tree>>, t: Tree)
    requires stack != [] && IsPrintable(t)
    ensures PushAll(stack, Flatten(t)) == Some(Extended(stack, [t]))
    decreases t, 1
  {
    match t
    case Atom(text) =>
      assert [text][1..] == [];
    case Node(children) =>
      var open := stack + [[]];
      PushAllOfConcat(stack, ["("], FlattenAll(children) + [")"]);
      assert ["("] + (FlattenAll(children) + [")"]) == Flatten(t);
      assert ["("][1..] == [];
      PushAllOfConcat(open, FlattenAll(children), [")"]);
      ParsesTrees(open, children);
      assert [")"][1..] == [];
      var full := Extended(open, children);
      assert open[..|open| - 1] == stack && [] + children == children;
      assert full == stack + [children];
      assert full[..|full| - 2] == stack[..|stack| - 1];
  }

  lemma {:induction false} ParsesTrees(stack: seq<seq<Tree>>, ts: seq<Tree>)
    requires stack != [] && AllPrintable(ts)
    ensures PushAll(stack, FlattenAll(ts)) == Some(Extended(stack, ts))
    decreases ts, 0
  {
    if ts == [] {
      assert stack[|stack| - 1] + ts == stack[|stack| - 1];
      assert Extended(stack, ts) == stack;
    } else {
      ParsesTree(stack, ts[0]);
      PushAllOfConcat(stack, Flatten(ts[0]), FlattenAll(ts[1..]));
      var next := Extended(stack, [ts[0]]);
      ParsesTrees(next, ts[1..]);
      assert Extended(next, ts[1..]) == Extended(stack, ts) by {
        assert [ts[0]] + ts[1..] == ts;
        assert stack[|stack| - 1] + [ts[0]] + ts[1..] == stack[|stack| - 1] + ts;
      }
    }
  }

  /** A tree's tokens parse back to the tree. */
  lemma FlattenParsesBack(t: Tree)
    requires IsPrintable(t)
    ensures Parse(Flatten(t)) == Some(t)
  {
    ParsesTree([[]], t);
  }

  // --- What the parser read ---------------------------------------------------------------

  /** The tokens a stack of unfinished lists was read from. */
  function Unread(stack: seq<seq<Tree>>): seq<string>
    requires stack != []
  {
    if |stack| == 1 then FlattenAll(stack[0])
    else Unread(stack[..|stack| - 1]) + ["("] + FlattenAll(stack[|stack| - 1])
  }

  lemma OpenReads(stack: seq<seq<Tree>>)
    requires stack != []
    ensures Unread(stack + [[]]) == Unread(stack) + ["("]
  {
    var next: seq<seq<Tree>> := stack + [[]];
    assert next[..|stack|] == stack;
  }

  lemma CloseReads(below: seq<seq<Tree>>, list: seq<Tree>, children: seq<Tree>)
    ensures Unread(below + [list + [Node(children)]]) == Unread(below + [list, children]) + [")"]
  {
    var open, next := below + [list, children], below + [list + [Node(children)]];
    assert open[..|open| - 1] == below + [list] && (below + [list])[..|below|] == below && next[..|below|] == below;
    FlattenAllOfConcat(list, [Node(children)]);
    assert [Node(children)][1..] == [];
  }

  lemma AtomReads(below: seq<seq<Tree>>, list: seq<Tree>, text: string)
    ensures Unread(below + [list + [Atom(text)]]) == Unread(below + [list]) + [text]
  {
    assert (below + [list + [Atom(text)]])[..|below|] == below && (below + [list])[..|below|] == below;
    FlattenAllOfConcat(list, [Atom(text)]);
    assert [Atom(text)][1..] == [];
  }

  lemma PushReads(stack: seq<seq<Tree>>, token: string)
    requires stack != [] && Push(stack, token).Some?
    ensures Push(stack, token).value != [] && Unread(Push(stack, token).value) == Unread(stack) + [token]
  {
    var n := |stack|;
    if token == "(" {
      OpenReads(stack);
    } else if token == ")" {
      CloseReads(stack[..n - 2], stack[n - 2], stack[n - 1]);
      assert stack == stack[..n - 2] + [stack[n - 2], stack[n - 1]];
    } else {
      AtomReads(stack[..n - 1], stack[n - 1], token);
      assert stack == stack[..n - 1] + [stack[n - 1]];
    }
  }

  lemma {:induction false} PushAllReads(stack: seq<seq<Tree>>, tokens: seq<string>)
    requires stack != [] && PushAll(stack, tokens).Some?
    ensures Unread(PushAll(stack, tokens).value) == Unread(stack) + tokens
    decreases |tokens|
  {
    if tokens != [] {
      PushReads(stack, tokens[0]);
      PushAllReads(Push(stack, tokens[0]).value, tokens[1..]);
      assert [tokens[0]] + tokens[1..] == tokens;
    }
  }

  lemma {:induction false} FirstListIsPrefix(stack: seq<seq<Tree>>)
    requires stack != []
    ensures FlattenAll(stack[0]) <= Unread(stack)
  {
    if |stack| > 1 {
      FirstListIsPrefix(stack[..|stack| - 1]);
    }
  }

  /** Whatever `sexp` returns, on any tokens, flattens to the tokens the input begins with; read to the end
      it flattens to all of them. */
  lemma ParsedIsPrefix(tokens: seq<string>)
    ensures var t := Parse(tokens);
            && (t.Some? ==> Flatten(t.value) <= tokens)
            && (t.Some? && PushAll([[]], tokens) == Some([[t.value]]) ==> Flatten(t.value) == tokens)
  {
    var done := PushAll([[]], tokens);
    if done.Some? && done.value[0] != [] {
      var t := done.value[0][0];
      PushAllReads([[]], tokens);
      assert Unread([[]]) == [];
      assert [] + tokens == tokens;
      FirstListIsPrefix(done.value);
      assert FlattenAll(done.value[0]) == Flatten(t) + FlattenAll(done.value[0][1..]);
      if done.value == [[t]] {
        assert [t][1..] == [];
      }
    }
  }

  // --- Text -------------------------------------------------------------------------------

  /** The tree's text, a space behind every child. */
  function Print(t: Tree): string
    decreases t, 1
  {
    match t
    case Atom(text) => text
    case Node(children) => "(" + PrintAll(children) + ")"
  }

  function PrintAll(ts: seq<Tree>): string
    decreases ts, 0
  {
    if ts == [] then "" else Print(ts[0]) + " " + PrintAll(ts[1..])
  }

  lemma {:induction false} StringEndOfPrefix(a: string, b: string, i: nat)
    requires i <= |a| && StringEnd(a, i).Some?
    ensures StringEnd(a + b, i) == StringEnd(a, i)
    decreases |a| - i
  {
    if a[i] == '"' {
    } else if a[i] == '\\' {
      StringEndOfPrefix(a, b, i + 2);
    } else {
      StringEndOfPrefix(a, b, i + 1);
    }
  }

  lemma {:induction false} AtomEndOfPrefix(a: string, b: string, i: nat)
    requires i <= |a| && AtomEnd(a, i) == |a| && (b == "" || IsDelimiter(b[0]))
    ensures AtomEnd(a + b, i) == |a|
    decreases |a| - i
  {
    if i < |a| {
      AtomEndOfPrefix(a, b, i + 1);
    }
  }

  lemma TokenFirst(a: string, rest: string)
    requires IsToken(a) && (rest == "" || IsDelimiter(rest[0]))
    ensures Tokens(a + rest) == [a] + Tokens(rest)
  {
    var text := a + rest;
    assert text[..|a|] == a && text[|a|..] == rest;
    if a[0] == '"' {
      StringEndOfPrefix(a, rest, 1);
    } else {
      AtomEndOfPrefix(a, rest, 1);
    }
  }

  lemma SpaceFirst(rest: string)
    ensures Tokens(" " + rest) == Tokens(rest)
  {
    assert (" " + rest)[1..] == rest;
  }

  lemma {:induction false} TokensOfPrinted(t: Tree, rest: string)
    requires IsPrintable(t) && (rest == "" || IsDelimiter(rest[0]))
    ensures Tokens(Print(t) + rest) == Flatten(t) + Tokens(rest)
    decreases t, 1
  {
    match t
    case Atom(text) => TokenFirst(text, rest);
    case Node(children) =>
      var inner := PrintAll(children) + (")" + rest);
      assert Print(t) + rest == "(" + inner;
      assert ("(" + inner)[1..] == inner && ("(" + inner)[..1] == "(";
      TokensOfPrintedAll(children, ")" + rest);
      assert (")" + rest)[1..] == rest && (")" + rest)[..1] == ")";
      assert Flatten(t) + Tokens(rest) == ["("] + (FlattenAll(children) + ([")"] + Tokens(rest)));
  }

  lemma {:induction false} TokensOfPrintedAll(ts: seq<Tree>, rest: string)
    requires AllPrintable(ts) && (rest == "" || IsDelimiter(rest[0]))
    ensures Tokens(PrintAll(ts) + rest) == FlattenAll(ts) + Tokens(rest)
    decreases ts, 0
  {
    if ts == [] {
      assert "" + rest == rest;
    } else {
      var behind := PrintAll(ts[1..]) + rest;
      calc {
        Tokens(PrintAll(ts) + rest);
      == { assert PrintAll(ts) + rest == Print(ts[0]) + (" " + behind); }
        Tokens(Print(ts[0]) + (" " + behind));
      == { TokensOfPrinted(ts[0], " " + behind); }
        Flatten(ts[0]) + Tokens(" " + behind);
      == { SpaceFirst(behind); }
        Flatten(ts[0]) + Tokens(behind);
      == { TokensOfPrintedAll(ts[1..], rest); }
        Flatten(ts[0]) + (FlattenAll(ts[1..]) + Tokens(rest));
      ==
        FlattenAll(ts) + Tokens(rest);
      }
    }
  }

  /** A printed tree parses back to the tree, token for token. */
  lemma PrintedParsesBack(t: Tree)
    requires IsPrintable(t)
    ensures Tokens(Print(t)) == Flatten(t)
    ensures Parse(Tokens(Print(t))) == Some(t)
  {
    TokensOfPrinted(t, "");
    assert Print(t) + "" == Print(t);
    assert Tokens("") == [];
    FlattenParsesBack(t);
  }
}
