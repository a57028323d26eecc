/** Sequences taken apart. */
module Sequences {
  lemma Regroup<T>(a: seq<T>, b: seq<T>, c: seq<T>)
    ensures (a + b) + c == a + (b + c)
  {
  }

  lemma AroundIndex<T>(xs: seq<T>, i: nat)
    requires i < |xs|
    ensures xs == xs[..i] + [xs[i]] + xs[i + 1..] && xs == xs[..i] + ([xs[i]] + xs[i + 1..])
  {
  }

  /** The elements of a sequence are those of the one without its element at `i`, and that one. */
  lemma TakenOut<T>(xs: seq<T>, i: nat)
    requires i < |xs|
    ensures multiset(xs) == multiset(xs[..i] + xs[i + 1..]) + multiset{xs[i]}
  {
    assert xs == xs[..i] + [xs[i]] + xs[i + 1..];
  }

  lemma FirstTakenOut<T>(xs: seq<T>)
    requires xs != []
    ensures multiset(xs) == multiset(xs[1..]) + multiset{xs[0]}
  {
    assert xs == [xs[0]] + xs[1..];
  }

  /** Where the first of a sequence stands in one that contains it; the others are in that one's others. */
  lemma FirstContained<T>(a: seq<T>, b: seq<T>) returns (i: nat)
    requires a != [] && multiset(a) <= multiset(b)
    ensures i < |b| && b[i] == a[0]
    ensures multiset(a[1..]) <= multiset(b[..i] + b[i + 1..])
    ensures multiset(a) == multiset(b) ==> multiset(a[1..]) == multiset(b[..i] + b[i + 1..])
  {
    FirstTakenOut(a);
    assert a[0] in multiset(b);
    i :| 0 <= i < |b| && b[i] == a[0];
    TakenOut(b, i);
    OneLess(multiset(a[1..]), multiset(b[..i] + b[i + 1..]), a[0]);
  }

  lemma OneLess<T>(a: multiset<T>, b: multiset<T>, x: T)
    ensures a + multiset{x} <= b + multiset{x} ==> a <= b
    ensures a + multiset{x} == b + multiset{x} ==> a == b
  {
    assert a == (a + multiset{x}) - multiset{x} && b == (b + multiset{x}) - multiset{x};
  }

  /** The same elements with two of them in front, in either order. */
  lemma TwoInFront<T>(xs: seq<T>, i: nat, j: nat) returns (others: seq<T>)
    requires i < j < |xs|
    ensures multiset([xs[i], xs[j]] + others) == multiset(xs) == multiset([xs[j], xs[i]] + others)
  {
    var a, b, c := xs[..i], xs[i + 1..j], xs[j + 1..];
    others := a + b + c;
    assert xs == a + [xs[i]] + b + [xs[j]] + c;
  }

  lemma {:induction false} StandsOnce<T>(xs: seq<T>, x: T)
    requires forall i, j :: 0 <= i < j < |xs| ==> xs[i] != xs[j]
    ensures multiset(xs)[x] <= 1
  {
    if xs != [] {
      FirstTakenOut(xs);
      StandsOnce(xs[1..], x);
      assert forall i :: 0 <= i < |xs[1..]| ==> xs[1..][i] == xs[i + 1] != xs[0];
    }
  }

  lemma StandsTwice<T>(xs: seq<T>, i: nat, j: nat)
    requires i < j < |xs| && xs[i] == xs[j]
    ensures multiset(xs)[xs[i]] >= 2
  {
    assert xs == xs[..i] + [xs[i]] + xs[i + 1..j] + [xs[j]] + xs[j + 1..];
  }

  /** Another order of distinct elements is distinct too. */
  lemma DistinctByMultiset<T>(xs: seq<T>, ys: seq<T>)
    requires multiset(xs) == multiset(ys) && forall i, j :: 0 <= i < j < |xs| ==> xs[i] != xs[j]
    ensures forall i, j :: 0 <= i < j < |ys| ==> ys[i] != ys[j]
  {
    forall i, j | 0 <= i < j < |ys| ensures ys[i] != ys[j] {
      if ys[i] == ys[j] {
        StandsTwice(ys, i, j);
        StandsOnce(xs, ys[i]);
      }
    }
  }
}
