/** Names in their alphabetical order, and the newest few of a set of names under an order. */
module Newest {

  // --- The order of strings -----------------------------------------------------------------

  /** Python's `a < b` on strings. */
  predicate Before(a: string, b: string) {
    b != [] && (a == [] || a[0] < b[0] || (a[0] == b[0] && Before(a[1..], b[1..])))
  }

  lemma {:induction false} OneOrEqual(a: string, b: string)
    ensures !(Before(a, b) && Before(b, a)) && (a == b || Before(a, b) || Before(b, a))
  {
    if a != [] && b != [] {
      OneOrEqual(a[1..], b[1..]);
      if a[0] == b[0] && a[1..] == b[1..] {
        assert a == [a[0]] + a[1..] && b == [b[0]] + b[1..];
      }
    }
  }

  lemma {:induction false} BeforeChains(a: string, b: string, c: string)
    requires Before(a, b) && Before(b, c)
    ensures Before(a, c)
  {
    if a != [] && a[0] == b[0] == c[0] {
      BeforeChains(a[1..], b[1..], c[1..]);
    }
  }

  /** A string comes before another if and only if that goes on where it ends, or has the larger character where they
      first differ. */
  lemma {:induction false} BeforeExactly(a: string, b: string)
    ensures Before(a, b) <==> exists i: nat :: Differ(a, b, i)
  {
    if a == [] || b == [] || a[0] != b[0] {
      assert Before(a, b) ==> Differ(a, b, 0);
    } else {
      BeforeExactly(a[1..], b[1..]);
      assert a == [a[0]] + a[1..] && b == [b[0]] + b[1..];
      if i: nat :| Differ(a[1..], b[1..], i) {
        assert a[..i + 1] == [a[0]] + a[1..][..i] && b[..i + 1] == [b[0]] + b[1..][..i];
        assert Differ(a, b, i + 1);
      }
      if i: nat :| Differ(a, b, i) {
        assert i > 0 && a[1..][..i - 1] == a[..i][1..] && b[1..][..i - 1] == b[..i][1..];
        assert Differ(a[1..], b[1..], i - 1);
      }
    }
  }

  /** The strings agree up to `i`, where the first ends or has the smaller character. */
  predicate Differ(a: string, b: string, i: nat) {
    i <= |a| && i < |b| && a[..i] == b[..i] && (i == |a| || a[i] < b[i])
  }

  // --- Orders ---------------------------------------------------------------------------------

  type Order = (string, string) -> bool

  /** `newer` puts any two names in one order. */
  ghost predicate IsOrder(newer: Order) {
    && (forall a: string, b: string :: !(newer(a, b) && newer(b, a)))
    && (forall a: string, b: string :: a == b || newer(a, b) || newer(b, a))
    && (forall a: string, b: string, c: string :: newer(a, b) && newer(b, c) ==> newer(a, c))
  }

  /** Later names first. */
  function ByName(): Order { (a: string, b: string) => Before(b, a) }

  lemma ByNameIsOrder()
    ensures IsOrder(ByName())
  {
    var newer := ByName();
    forall a: string, b: string ensures !(newer(a, b) && newer(b, a)) && (a == b || newer(a, b) || newer(b, a)) {
      OneOrEqual(a, b);
    }
    forall a: string, b: string, c: string | newer(a, b) && newer(b, c) ensures newer(a, c) {
      BeforeChains(c, b, a);
    }
  }

  function DateIn(dates: map<string, string>, name: string): string { if name in dates then dates[name] else "" }

  /** Later dates first, and later names first among those of one date. */
  function ByDate(dates: map<string, string>): Order {
    (a: string, b: string) =>
      Before(DateIn(dates, b), DateIn(dates, a)) || (DateIn(dates, a) == DateIn(dates, b) && Before(b, a))
  }

  lemma ByDateIsOrder(dates: map<string, string>)
    ensures IsOrder(ByDate(dates))
  {
    var newer := ByDate(dates);
    forall a: string, b: string ensures !(newer(a, b) && newer(b, a)) && (a == b || newer(a, b) || newer(b, a)) {
      OneOrEqual(a, b);
      OneOrEqual(DateIn(dates, a), DateIn(dates, b));
    }
    forall a: string, b: string, c: string | newer(a, b) && newer(b, c) ensures newer(a, c) {
      var da, db, dc := DateIn(dates, a), DateIn(dates, b), DateIn(dates, c);
      if Before(db, da) && Before(dc, db) {
        BeforeChains(dc, db, da);
      }
      if Before(b, a) && Before(c, b) {
        BeforeChains(c, b, a);
      }
    }
  }

  // --- The newest few -------------------------------------------------------------------------

  function NewerIn(s: set<string>, x: string, newer: Order): set<string> { set y | y in s && newer(y, x) }

  /** The names of `s` with fewer than `k` newer ones. */
  function Top(s: set<string>, k: nat, newer: Order): set<string> { set x | x in s && |NewerIn(s, x, newer)| < k }

  lemma Larger(small: set<string>, large: set<string>)
    requires small <= large
    ensures |small| <= |large|
  {
    assert large == small + (large - small);
  }

  lemma OneMore(small: set<string>, large: set<string>) returns (x: string)
    requires |small| < |large| && small <= large
    ensures x in large && x !in small
  {
    assert large == small + (large - small);
    x :| x in large - small;
  }

  lemma StrictlyLarger(small: set<string>, large: set<string>, x: string)
    requires small <= large && x in large && x !in small
    ensures |small| < |large|
  {
    Larger(small, large - {x});
  }

  /** A newer name has fewer names newer than itself. */
  lemma NewerHasFewer(s: set<string>, x: string, y: string, newer: Order)
    requires IsOrder(newer) && x in s && newer(x, y)
    ensures NewerIn(s, x, newer) <= NewerIn(s, y, newer) && |NewerIn(s, x, newer)| < |NewerIn(s, y, newer)|
  {
    StrictlyLarger(NewerIn(s, x, newer), NewerIn(s, y, newer), x);
  }

  lemma {:induction false} NewestExists(s: set<string>, newer: Order) returns (m: string)
    requires IsOrder(newer) && s != {}
    ensures m in s && forall x :: x in s ==> x == m || newer(m, x)
  {
    m :| m in s;
    var rest := s - {m};
    assert s == {m} + rest;
    if rest != {} {
      var n := NewestExists(rest, newer);
      if newer(n, m) {
        m := n;
      }
    }
  }

  lemma NewestIsThere(s: set<string>, newer: Order)
    requires IsOrder(newer) && s != {}
    ensures exists m :: m in s && forall x :: x in s ==> x == m || newer(m, x)
  {
    var m := NewestExists(s, newer);
  }

  /** The names of `s`, newest first. */
  function Descending(s: set<string>, newer: Order): (names: seq<string>)
    requires IsOrder(newer)
    decreases |s|
  {
    if s == {} then []
    else
      NewestIsThere(s, newer);
      var m :| m in s && forall x :: x in s ==> x == m || newer(m, x);
      [m] + Descending(s - {m}, newer)
  }

  /** Each name stands behind as many as are newer. */
  lemma {:induction false} Places(s: set<string>, newer: Order, i: nat)
    requires IsOrder(newer)
    ensures |Descending(s, newer)| == |s|
    ensures i < |s| ==> Descending(s, newer)[i] in s && |NewerIn(s, Descending(s, newer)[i], newer)| == i
    decreases |s|
  {
    if s != {} {
      var names := Descending(s, newer);
      var m := names[0];
      var rest := s - {m};
      assert names == [m] + Descending(rest, newer);
      Places(rest, newer, if i > 0 then i - 1 else 0);
      if i == 0 {
        assert NewerIn(s, m, newer) == {};
      } else if i < |s| {
        var x := names[i];
        assert x == Descending(rest, newer)[i - 1];
        assert NewerIn(s, x, newer) == {m} + NewerIn(rest, x, newer);
      }
    }
  }

  /** And each name stands somewhere. */
  lemma {:induction false} PlaceOf(s: set<string>, newer: Order, x: string) returns (i: nat)
    requires IsOrder(newer) && x in s
    ensures |Descending(s, newer)| == |s| && i < |s| && Descending(s, newer)[i] == x
    decreases |s|
  {
    Places(s, newer, 0);
    var names := Descending(s, newer);
    var m := names[0];
    assert names == [m] + Descending(s - {m}, newer);
    if x == m {
      i := 0;
    } else {
      i := PlaceOf(s - {m}, newer, x);
      i := i + 1;
    }
  }

  /** The first `k` of them. */
  function Window(s: set<string>, k: nat, newer: Order): (names: seq<string>)
    requires IsOrder(newer)
  {
    var all := Descending(s, newer);
    if |all| <= k then all else all[..k]
  }

  /** The window holds the names that fewer than `k` others are newer than. */
  lemma WindowIsTop(s: set<string>, k: nat, newer: Order, x: string)
    requires IsOrder(newer)
    ensures x in Window(s, k, newer) <==> x in Top(s, k, newer)
  {
    Places(s, newer, 0);
    var names := Window(s, k, newer);
    if x in names {
      var i :| 0 <= i < |names| && names[i] == x;
      Places(s, newer, i);
    }
    if x in Top(s, k, newer) {
      var i := PlaceOf(s, newer, x);
      Places(s, newer, i);
      assert names[i] == x;
    }
  }

  /** The window has as many names as it can hold, each newer than the next, and each newer than any name left out. */
  lemma WindowDescends(s: set<string>, k: nat, newer: Order)
    requires IsOrder(newer)
    ensures var names := Window(s, k, newer);
            && |names| == (if |s| < k then |s| else k)
            && (forall i, j :: 0 <= i < j < |names| ==> newer(names[i], names[j]))
            && forall i, x :: 0 <= i < |names| && x in s && x !in names ==> newer(names[i], x)
  {
    Places(s, newer, 0);
    var all, names := Descending(s, newer), Window(s, k, newer);
    forall i, j | 0 <= i < j < |all| ensures newer(all[i], all[j]) {
      Places(s, newer, i);
      Places(s, newer, j);
      if newer(all[j], all[i]) {
        NewerHasFewer(s, all[j], all[i], newer);
      }
    }
    forall i, x | 0 <= i < |names| && x in s && x !in names ensures newer(names[i], x) {
      var j := PlaceOf(s, newer, x);
      assert forall m :: 0 <= m < |names| ==> all[m] in names;
    }
  }

  /** Two orders that agree on `s` list it alike. */
  lemma {:induction false} SameOrderSameList(s: set<string>, newer: Order, newer': Order)
    requires IsOrder(newer) && IsOrder(newer')
    requires forall a, b :: a in s && b in s ==> newer(a, b) == newer'(a, b)
    ensures Descending(s, newer) == Descending(s, newer')
    decreases |s|
  {
    if s != {} {
      var m, m' := Descending(s, newer)[0], Descending(s, newer')[0];
      assert m == m';
      SameOrderSameList(s - {m}, newer, newer');
    }
  }

  /** A name left out of the newest `k` has `k` newer ones among them. */
  lemma LeftOutIsOld(s: set<string>, k: nat, newer: Order, y: string)
    requires IsOrder(newer) && y in s && y !in Top(s, k, newer)
    ensures |NewerIn(Top(s, k, newer), y, newer)| >= k
  {
    StrictlyLarger(NewerIn(s, y, newer), s, y);
    Places(s, newer, k);
    var z := Descending(s, newer)[k];
    forall w | w in NewerIn(s, z, newer) ensures w in NewerIn(Top(s, k, newer), y, newer) {
      NewerHasFewer(s, w, z, newer);
      if newer(y, z) {
        NewerHasFewer(s, y, z, newer);
      }
    }
    Larger(NewerIn(s, z, newer), NewerIn(Top(s, k, newer), y, newer));
  }

  /** Where a name is left out, the newest `k` are `k` many, all newer than it, and those newer than the newest name
      left out are they. */
  lemma NewestLeftOut(s: set<string>, k: nat, newer: Order, y: string) returns (z: string)
    requires IsOrder(newer) && y in s && y !in Top(s, k, newer)
    ensures |Top(s, k, newer)| == k && Top(s, k, newer) <= NewerIn(s, y, newer)
    ensures z in s && z !in Top(s, k, newer) && NewerIn(s, z, newer) == Top(s, k, newer) && (z == y || newer(z, y))
  {
    StrictlyLarger(NewerIn(s, y, newer), s, y);
    Places(s, newer, k);
    z := Descending(s, newer)[k];
    var top := Top(s, k, newer);
    forall w | w in s ensures w in top <==> newer(w, z) {
      if newer(w, z) {
        NewerHasFewer(s, w, z, newer);
      } else if newer(z, w) {
        NewerHasFewer(s, z, w, newer);
      }
    }
    assert NewerIn(s, z, newer) == top;
    if newer(y, z) {
      NewerHasFewer(s, y, z, newer);
    }
  }

  // --- One name moved ---------------------------------------------------------------------------

  /** The orders agree but on where `x` stands. */
  ghost predicate MovesOnly(newer: Order, newer': Order, x: string) {
    forall a: string, b: string :: a != x && b != x ==> newer(a, b) == newer'(a, b)
  }

  /** A name that was left out of the newest `k` is among them after `x` has moved (or was taken out of, or put into,
      the set) if and only if `x` was among them and now stands behind a name that was left out, or nowhere. */
  lemma MovedLetsIn(s: set<string>, s': set<string>, k: nat, newer: Order, newer': Order, x: string)
    requires IsOrder(newer) && IsOrder(newer') && MovesOnly(newer, newer', x) && s - {x} == s' - {x}
    ensures (exists y :: y in s && y != x && y !in Top(s, k, newer) && y in Top(s', k, newer')) <==>
            x in Top(s, k, newer) && exists y :: y in s && y !in Top(s, k, newer) && (x in s' ==> newer'(y, x))
  {
    var top := Top(s, k, newer);
    if y :| y in s && y != x && y !in top && y in Top(s', k, newer') {
      if x !in top || (x in s' && newer'(x, y)) {
        MovedKeepsOut(s, s', k, newer, newer', x, y);
      }
    }
    if x in top {
      if y :| y in s && y !in top && (x in s' ==> newer'(y, x)) {
        var z := NewestLeftOut(s, k, newer, y);
        assert x in s' ==> newer'(z, x);
        forall w | w in NewerIn(s', z, newer') ensures w in top - {x} {
          assert w != x;
          assert w in s' - {x};
          assert w in NewerIn(s, z, newer);
        }
        Larger(NewerIn(s', z, newer'), top - {x});
        assert z in s' - {x};
      }
    }
  }

  lemma MovedKeepsOut(s: set<string>, s': set<string>, k: nat, newer: Order, newer': Order, x: string, y: string)
    requires IsOrder(newer) && IsOrder(newer') && MovesOnly(newer, newer', x) && s - {x} == s' - {x}
    requires y in s && y != x && y !in Top(s, k, newer)
    requires x !in Top(s, k, newer) || (x in s' && newer'(x, y))
    ensures y !in Top(s', k, newer')
  {
    var top := Top(s, k, newer);
    var z := NewestLeftOut(s, k, newer, y);
    forall w | w in top ensures w in NewerIn(s', y, newer') {
      assert newer(w, y);
      assert w != x ==> w in s - {x};
    }
    Larger(top, NewerIn(s', y, newer'));
  }

  /** A name left out is among the newest `k` after it has moved if and only if it now stands before one of them. */
  lemma MovedGetsIn(s: set<string>, k: nat, newer: Order, newer': Order, x: string)
    requires IsOrder(newer) && IsOrder(newer') && MovesOnly(newer, newer', x) && x in s && x !in Top(s, k, newer)
    ensures x in Top(s, k, newer') <==> exists z :: z in Top(s, k, newer) && newer'(x, z)
  {
    var top := Top(s, k, newer);
    var _ := NewestLeftOut(s, k, newer, x);
    if z :| z in top && newer'(x, z) {
      forall w | w in NewerIn(s, x, newer') ensures w in NewerIn(s, z, newer) {
        assert w != x && newer'(w, z);
      }
      Larger(NewerIn(s, x, newer'), NewerIn(s, z, newer));
    } else {
      assert top <= NewerIn(s, x, newer');
      Larger(top, NewerIn(s, x, newer'));
    }
  }

  /** `x` taken out of `s` (`out`), put into it, or, being `other`, left as it is. */
  function WithMoved(s: set<string>, x: string, out: bool, other: bool): set<string> {
    if other then s else if out then s - {x} else s + {x}
  }

  /** When a name left out of the newest `k` comes back as `x` moves. */
  ghost predicate ComesBack(s: set<string>, k: nat, newer: Order, newer': Order, x: string, out: bool, other: bool) {
    var top := Top(s, k, newer);
    || (x in top && exists y :: y in s && y !in top && ((out && !other) || newer'(y, x)))
    || (other && x in s && x !in top && exists z :: z in top && newer'(x, z))
  }

  /** The newest `k` of the moved set are among the moved newest `k` of `s` if and only if no name comes back. */
  lemma ComesBackExactly(s: set<string>, k: nat, newer: Order, newer': Order, x: string, out: bool, other: bool)
    requires IsOrder(newer) && IsOrder(newer') && MovesOnly(newer, newer', x)
    ensures (exists y :: && y in Top(WithMoved(s, x, out, other), k, newer')
                         && y !in WithMoved(Top(s, k, newer), x, out, other))
            <==> ComesBack(s, k, newer, newer', x, out, other)
  {
    var s', few := WithMoved(s, x, out, other), WithMoved(Top(s, k, newer), x, out, other);
    assert s - {x} == s' - {x};
    MovedLetsIn(s, s', k, newer, newer', x);
    if other && x in s && x !in Top(s, k, newer) {
      MovedGetsIn(s, k, newer, newer', x);
    }
    forall y | y != x ensures y in Top(s', k, newer') && y !in few
                              <==> y in s && y !in Top(s, k, newer) && y in Top(s', k, newer') {
      assert y in s' <==> y in s' - {x};
      assert y in s <==> y in s - {x};
    }
  }

  /** Names that `k` others are newer than do not matter: with or without them the newest `k` are the same. */
  lemma OldNamesDoNotMatter(few: set<string>, all: set<string>, k: nat, newer: Order)
    requires IsOrder(newer) && few <= all
    requires forall y :: y in all && y !in few ==> |NewerIn(few, y, newer)| >= k
    ensures Top(few, k, newer) == Top(all, k, newer)
  {
    forall x | x in all ensures x in Top(few, k, newer) <==> x in Top(all, k, newer) {
      Larger(NewerIn(few, x, newer), NewerIn(all, x, newer));
      if x in Top(few, k, newer) && x !in Top(all, k, newer) {
        var y := OneMore(NewerIn(few, x, newer), NewerIn(all, x, newer));
        Larger(NewerIn(few, y, newer), NewerIn(few, x, newer));
      }
    }
  }

  /** Sets with the same newest `k` have the same window. */
  lemma {:induction false} SameTopSameWindow(s: set<string>, t: set<string>, k: nat, newer: Order)
    requires IsOrder(newer) && Top(s, k, newer) == Top(t, k, newer)
    ensures Window(s, k, newer) == Window(t, k, newer)
  {
    WindowOfTop(s, k, newer);
    WindowOfTop(t, k, newer);
  }

  lemma WindowOfTop(s: set<string>, k: nat, newer: Order)
    requires IsOrder(newer)
    ensures Window(s, k, newer) == Descending(Top(s, k, newer), newer)
  {
    var top := Top(s, k, newer);
    var names, listed := Window(s, k, newer), Descending(top, newer);
    Places(s, newer, 0);
    Places(top, newer, 0);
    forall i | 0 <= i < |names| ensures i < |listed| && names[i] == listed[i] {
      Places(s, newer, i);
      TopKeepsNewer(s, k, newer, names[i]);
      var j := PlaceOf(top, newer, names[i]);
      Places(top, newer, j);
    }
    if |names| < |listed| {
      var last := |names|;
      Places(top, newer, last);
      var x := listed[last];
      TopKeepsNewer(s, k, newer, x);
      var j := PlaceOf(s, newer, x);
      Places(s, newer, j);
    }
    if names != [] {
      assert names[|names| - 1] == listed[|names| - 1];
    }
  }

  lemma TopKeepsNewer(s: set<string>, k: nat, newer: Order, x: string)
    requires IsOrder(newer) && x in Top(s, k, newer)
    ensures NewerIn(Top(s, k, newer), x, newer) == NewerIn(s, x, newer)
  {
    forall y | y in NewerIn(s, x, newer) ensures y in Top(s, k, newer) {
      NewerHasFewer(s, y, x, newer);
    }
  }
}
