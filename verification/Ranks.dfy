/** Tie-averaged ranks: `ranks` of the paired comparison's correlations. */
module Ranks {
  import opened Arithmetic

  // --- Counting -------------------------------------------------------------------------

  function Below(ys: seq<real>, v: real): nat {
    if ys == [] then 0 else (if ys[0] < v then 1 else 0) + Below(ys[1..], v)
  }

  function Equal(ys: seq<real>, v: real): nat {
    if ys == [] then 0 else (if ys[0] == v then 1 else 0) + Equal(ys[1..], v)
  }

  lemma {:induction false} CountsOfConcat(a: seq<real>, b: seq<real>, v: real)
    ensures Below(a + b, v) == Below(a, v) + Below(b, v)
    ensures Equal(a + b, v) == Equal(a, v) + Equal(b, v)
  {
    if a == [] {
      assert a + b == b;
    } else {
      assert (a + b)[1..] == a[1..] + b;
      CountsOfConcat(a[1..], b, v);
    }
  }

  lemma {:induction false} CountsAllBelow(ys: seq<real>, v: real)
    requires forall k :: 0 <= k < |ys| ==> ys[k] < v
    ensures Below(ys, v) == |ys| && Equal(ys, v) == 0
  {
    if ys != [] {
      CountsAllBelow(ys[1..], v);
    }
  }

  lemma {:induction false} CountsAllEqual(ys: seq<real>, v: real)
    requires forall k :: 0 <= k < |ys| ==> ys[k] == v
    ensures Below(ys, v) == 0 && Equal(ys, v) == |ys|
  {
    if ys != [] {
      CountsAllEqual(ys[1..], v);
    }
  }

  lemma {:induction false} CountsAllAbove(ys: seq<real>, v: real)
    requires forall k :: 0 <= k < |ys| ==> ys[k] > v
    ensures Below(ys, v) == 0 && Equal(ys, v) == 0
  {
    if ys != [] {
      CountsAllAbove(ys[1..], v);
    }
  }

  // --- The rank by counting ---------------------------------------------------------------

  /** The rank of `xs[a]`, from the definition: how many are less, and the middle of its equals. */
  function RankOf(xs: seq<real>, v: real): real {
    Below(xs, v) as real + (Equal(xs, v) as real - 1.0) / 2.0
  }

  lemma {:induction false} EqualAtLeastOne(xs: seq<real>, a: nat)
    requires a < |xs|
    ensures Equal(xs, xs[a]) >= 1
  {
    if a > 0 {
      EqualAtLeastOne(xs[1..], a - 1);
    }
  }

  lemma {:induction false} BelowGrows(xs: seq<real>, v: real, w: real)
    requires v < w
    ensures Below(xs, w) >= Below(xs, v) + Equal(xs, v)
  {
    if xs != [] {
      BelowGrows(xs[1..], v, w);
    }
  }

  /** Comparing ranks is comparing values. */
  lemma RanksCompareAsValues(xs: seq<real>, a: nat, b: nat)
    requires a < |xs| && b < |xs|
    ensures RankOf(xs, xs[a]) < RankOf(xs, xs[b]) <==> xs[a] < xs[b]
    ensures RankOf(xs, xs[a]) == RankOf(xs, xs[b]) <==> xs[a] == xs[b]
  {
    EqualAtLeastOne(xs, a);
    EqualAtLeastOne(xs, b);
    if xs[a] < xs[b] {
      BelowGrows(xs, xs[a], xs[b]);
    } else if xs[b] < xs[a] {
      BelowGrows(xs, xs[b], xs[a]);
    }
  }

  // --- The sum of the ranks ---------------------------------------------------------------

  /** What `y` scores against `xs`: one for each less, half for each equal. */
  function Score(xs: seq<real>, y: real): real { Below(xs, y) as real + Equal(xs, y) as real / 2.0 }

  function Scores(xs: seq<real>, ys: seq<real>): real {
    if ys == [] then 0.0 else Score(xs, ys[0]) + Scores(xs, ys[1..])
  }

  /** What the members of `xs` score against `y` alone, and what `y` scores against them, is one a pair. */
  lemma {:induction false} OneAgainstAll(xs: seq<real>, ys: seq<real>, y: real)
    ensures Scores([y] + ys, xs) == Scores(ys, xs) + (|xs| as real - Score(xs, y))
  {
    if xs != [] {
      OneAgainstAll(xs[1..], ys, y);
      CountsOfConcat([y], ys, xs[0]);
      assert [y][1..] == [];
    }
  }

  /** Every pair is decided once, or halved: the two sides' scores sum to the number of pairs. */
  lemma {:induction false} ScoresSumToPairs(xs: seq<real>, ys: seq<real>)
    ensures Scores(xs, ys) + Scores(ys, xs) == |xs| as real * |ys| as real
  {
    if ys == [] {
      NoScores(xs);
    } else {
      ScoresSumToPairs(xs, ys[1..]);
      OneAgainstAll(xs, ys[1..], ys[0]);
      assert ys == [ys[0]] + ys[1..];
      assert |ys| as real == |ys[1..]| as real + 1.0;
      assert |xs| as real * |ys| as real == |xs| as real * |ys[1..]| as real + |xs| as real;
    }
  }

  lemma {:induction false} NoScores(xs: seq<real>)
    ensures Scores([], xs) == 0.0
  {
    if xs != [] {
      NoScores(xs[1..]);
    }
  }

  lemma {:induction false} SumOfRanks(xs: seq<real>, ys: seq<real>, rs: seq<real>)
    requires |rs| == |ys| && forall a :: 0 <= a < |ys| ==> rs[a] == RankOf(xs, ys[a])
    ensures Sum(rs) == Scores(xs, ys) - |ys| as real / 2.0
  {
    if ys != [] {
      SumOfRanks(xs, ys[1..], rs[1..]);
      assert |ys| as real == |ys[1..]| as real + 1.0;
    }
  }

  /** n(n-1)/2. */
  function PairsOf(n: nat): real { n as real * (n as real - 1.0) / 2.0 }

  /** The ranks of `n` values, ties and all, sum to n(n-1)/2. */
  lemma RanksSum(xs: seq<real>, rs: seq<real>)
    requires |rs| == |xs| && forall a :: 0 <= a < |xs| ==> rs[a] == RankOf(xs, xs[a])
    ensures Sum(rs) == PairsOf(|xs|)
  {
    ScoresSumToPairs(xs, xs);
    SumOfRanks(xs, xs, rs);
  }

  // --- The stable order -------------------------------------------------------------------

  function Values(xs: seq<real>, order: seq<nat>): (values: seq<real>)
    requires forall p :: 0 <= p < |order| ==> order[p] < |xs|
    ensures |values| == |order| && forall p :: 0 <= p < |order| ==> values[p] == xs[order[p]]
  {
    seq(|order|, p requires 0 <= p < |order| => xs[order[p]])
  }

  predicate NoneBelow(v: real, ys: seq<real>) { forall p :: 0 <= p < |ys| ==> v <= ys[p] }

  predicate Sorted(ys: seq<real>) { ys != [] ==> NoneBelow(ys[0], ys[1..]) && Sorted(ys[1..]) }

  lemma {:induction false} SortedAt(ys: seq<real>, a: nat, b: nat)
    requires Sorted(ys) && a <= b < |ys|
    ensures ys[a] <= ys[b]
  {
    if a > 0 {
      SortedAt(ys[1..], a - 1, b - 1);
    } else if b > 0 {
      assert ys[1..][b - 1] == ys[b];
    }
  }

  predicate Distinct(order: seq<nat>) { forall p, q :: 0 <= p < q < |order| ==> order[p] != order[q] }

  /** `i` put behind every index whose value is no greater. */
  function Inserted(xs: seq<real>, order: seq<nat>, i: nat): (result: seq<nat>)
    requires i < |xs| && forall p :: 0 <= p < |order| ==> order[p] < |xs|
    ensures |result| == |order| + 1
    ensures forall p :: 0 <= p < |result| ==> result[p] < |xs| && (result[p] == i || result[p] in order)
    ensures i in result && forall p :: 0 <= p < |order| ==> order[p] in result
  {
    if order == [] then [i]
    else if xs[i] < xs[order[0]] then [i] + order
    else [order[0]] + Inserted(xs, order[1..], i)
  }

  lemma {:induction false} InsertedDistinct(xs: seq<real>, order: seq<nat>, i: nat)
    requires i < |xs| && (forall p :: 0 <= p < |order| ==> order[p] < |xs|) && Distinct(order) && i !in order
    ensures Distinct(Inserted(xs, order, i))
  {
    if order != [] && xs[i] >= xs[order[0]] {
      InsertedDistinct(xs, order[1..], i);
      var rest := Inserted(xs, order[1..], i);
      forall q | 0 <= q < |rest| ensures rest[q] != order[0] {
      }
    }
  }

  /** The first `n` indices, stably sorted by their values. */
  function Order(xs: seq<real>, n: nat): (order: seq<nat>)
    requires n <= |xs|
    ensures |order| == n && forall p :: 0 <= p < n ==> order[p] < n
  {
    if n == 0 then [] else
      var before := Order(xs, n - 1);
      Inserted(xs, before, n - 1)
  }

  /** Inserting an index inserts its value. */
  function InsertedValue(ys: seq<real>, v: real): seq<real> {
    if ys == [] then [v]
    else if v < ys[0] then [v] + ys
    else [ys[0]] + InsertedValue(ys[1..], v)
  }

  lemma {:induction false} InsertedValues(xs: seq<real>, order: seq<nat>, i: nat)
    requires i < |xs| && forall p :: 0 <= p < |order| ==> order[p] < |xs|
    ensures Values(xs, Inserted(xs, order, i)) == InsertedValue(Values(xs, order), xs[i])
  {
    if order != [] {
      assert order == [order[0]] + order[1..];
      ValuesWithFirst(xs, order[0], order[1..]);
      if xs[i] < xs[order[0]] {
        ValuesWithFirst(xs, i, order);
      } else {
        InsertedValues(xs, order[1..], i);
        ValuesWithFirst(xs, order[0], Inserted(xs, order[1..], i));
      }
    }
  }

  lemma ValuesWithFirst(xs: seq<real>, i: nat, order: seq<nat>)
    requires i < |xs| && forall p :: 0 <= p < |order| ==> order[p] < |xs|
    ensures Values(xs, [i] + order) == [xs[i]] + Values(xs, order)
  {
  }

  lemma {:induction false} InsertedNoneBelow(w: real, ys: seq<real>, v: real)
    requires w <= v && NoneBelow(w, ys)
    ensures NoneBelow(w, InsertedValue(ys, v))
  {
    if ys != [] && v >= ys[0] {
      InsertedNoneBelow(w, ys[1..], v);
    }
  }

  lemma {:induction false} InsertedValueSorted(ys: seq<real>, v: real)
    requires Sorted(ys)
    ensures Sorted(InsertedValue(ys, v))
  {
    if ys == [] {
    } else if v < ys[0] {
      assert ([v] + ys)[1..] == ys;
      assert forall p :: 0 < p < |ys| ==> ys[p] == ys[1..][p - 1];
      assert NoneBelow(v, ys);
    } else {
      InsertedValueSorted(ys[1..], v);
      InsertedNoneBelow(ys[0], ys[1..], v);
      var zs := InsertedValue(ys[1..], v);
      assert ([ys[0]] + zs)[1..] == zs;
    }
  }

  /** Inserting a value adds it to every count, wherever it goes. */
  lemma {:induction false} InsertedValueCounts(ys: seq<real>, v: real, w: real)
    ensures Below(InsertedValue(ys, v), w) == Below(ys, w) + (if v < w then 1 else 0)
    ensures Equal(InsertedValue(ys, v), w) == Equal(ys, w) + (if v == w then 1 else 0)
  {
    if ys != [] {
      if v < ys[0] {
        assert ([v] + ys)[1..] == ys;
      } else {
        InsertedValueCounts(ys[1..], v, w);
        assert ([ys[0]] + InsertedValue(ys[1..], v))[1..] == InsertedValue(ys[1..], v);
      }
    }
  }

  predicate Has(order: seq<nat>, i: nat) { exists p :: 0 <= p < |order| && order[p] == i }

  lemma OrderedNext(xs: seq<real>, n: nat)
    requires n < |xs|
    ensures Values(xs, Order(xs, n + 1)) == InsertedValue(Values(xs, Order(xs, n)), xs[n])
  {
    InsertedValues(xs, Order(xs, n), n);
  }

  lemma {:induction false} OrderSorts(xs: seq<real>, n: nat)
    requires n <= |xs|
    ensures Sorted(Values(xs, Order(xs, n)))
  {
    if n > 0 {
      OrderSorts(xs, n - 1);
      OrderedNext(xs, n - 1);
      InsertedValueSorted(Values(xs, Order(xs, n - 1)), xs[n - 1]);
    }
  }

  lemma {:induction false} OrderHasAll(xs: seq<real>, n: nat)
    requires n <= |xs|
    ensures Distinct(Order(xs, n)) && forall i: nat :: i < n ==> Has(Order(xs, n), i)
  {
    if n > 0 {
      OrderHasAll(xs, n - 1);
      var before := Order(xs, n - 1);
      InsertedDistinct(xs, before, n - 1);
      forall i: nat | i < n ensures Has(Order(xs, n), i) {
        if i < n - 1 {
          assert Has(before, i);
          var p :| 0 <= p < |before| && before[p] == i;
        }
      }
    }
  }

  lemma CountsOfOneMore(ys: seq<real>, y: real, v: real)
    ensures Below(ys + [y], v) == Below(ys, v) + (if y < v then 1 else 0)
    ensures Equal(ys + [y], v) == Equal(ys, v) + (if y == v then 1 else 0)
  {
    CountsOfConcat(ys, [y], v);
    assert [y][1..] == [];
  }

  lemma CountsOfNext(xs: seq<real>, n: nat, v: real)
    requires n < |xs|
    ensures Below(xs[..n + 1], v) == Below(xs[..n], v) + (if xs[n] < v then 1 else 0)
    ensures Equal(xs[..n + 1], v) == Equal(xs[..n], v) + (if xs[n] == v then 1 else 0)
  {
    assert xs[..n + 1] == xs[..n] + [xs[n]];
    CountsOfOneMore(xs[..n], xs[n], v);
  }

  /** The ordered values count as the values do. */
  lemma {:induction false} OrderCounts(xs: seq<real>, n: nat, v: real)
    requires n <= |xs|
    ensures Below(Values(xs, Order(xs, n)), v) == Below(xs[..n], v)
    ensures Equal(Values(xs, Order(xs, n)), v) == Equal(xs[..n], v)
  {
    if n > 0 {
      OrderCounts(xs, n - 1, v);
      OrderedNext(xs, n - 1);
      InsertedValueCounts(Values(xs, Order(xs, n - 1)), xs[n - 1], v);
      CountsOfNext(xs, n - 1, v);
    }
  }

  // --- The loops --------------------------------------------------------------------------

  lemma AllCounts(xs: seq<real>, v: real)
    ensures Below(Values(xs, Order(xs, |xs|)), v) == Below(xs, v)
    ensures Equal(Values(xs, Order(xs, |xs|)), v) == Equal(xs, v)
  {
    OrderCounts(xs, |xs|, v);
    assert xs[..|xs|] == xs;
  }

  lemma BlockCounts(ys: seq<real>, i: nat, j: nat, v: real)
    requires i <= j < |ys|
    requires forall k :: 0 <= k < i ==> ys[k] < v
    requires forall k :: i <= k <= j ==> ys[k] == v
    requires forall k :: j < k < |ys| ==> ys[k] > v
    ensures Below(ys, v) == i && Equal(ys, v) == j - i + 1
  {
    var a, b, c := ys[..i], ys[i..j + 1], ys[j + 1..];
    assert ys == a + (b + c);
    CountsOfConcat(a, b + c, v);
    CountsOfConcat(b, c, v);
    CountsAllBelow(a, v);
    CountsAllEqual(b, v);
    CountsAllAbove(c, v);
  }

  /** A block of equal values in the order has the middle of its positions as its rank. */
  lemma BlockRank(xs: seq<real>, ys: seq<real>, i: nat, j: nat)
    requires Sorted(ys) && i <= j < |ys| && Below(ys, ys[i]) == Below(xs, ys[i]) && Equal(ys, ys[i]) == Equal(xs, ys[i])
    requires forall k :: i <= k <= j ==> ys[k] == ys[i]
    requires i > 0 ==> ys[i - 1] != ys[i]
    requires j + 1 < |ys| ==> ys[j + 1] != ys[i]
    ensures RankOf(xs, ys[i]) == (i + j) as real / 2.0
  {
    forall k | 0 <= k < i ensures ys[k] < ys[i] {
      SortedAt(ys, k, i - 1);
      SortedAt(ys, i - 1, i);
    }
    forall k | j < k < |ys| ensures ys[k] > ys[i] {
      SortedAt(ys, j, j + 1);
      SortedAt(ys, j + 1, k);
    }
    BlockCounts(ys, i, j, ys[i]);
  }

  /** The first `n` positions have their ranks. */
  ghost predicate RankedTo(xs: seq<real>, order: seq<nat>, out: seq<real>, n: nat) {
    forall p :: 0 <= p < n && p < |order| && order[p] < |out| && order[p] < |xs| ==>
        out[order[p]] == RankOf(xs, xs[order[p]])
  }

  /** Writes one block's rank. */
  method RankBlock(xs: seq<real>, order: seq<nat>, out: array<real>, i: nat, j: nat)
    requires i <= j < |order| && out.Length == |xs| && Distinct(order)
    requires forall p :: 0 <= p < |order| ==> order[p] < |xs|
    requires RankedTo(xs, order, out[..], i)
    requires forall p :: i <= p <= j ==> RankOf(xs, xs[order[p]]) == (i + j) as real / 2.0
    modifies out
    ensures RankedTo(xs, order, out[..], j + 1)
  {
    for position := i to j + 1
      invariant RankedTo(xs, order, out[..], position)
    {
      out[order[position]] := (i + j) as real / 2.0;
    }
  }

  /** The last position of the block of equal values that begins at `i`. */
  method BlockOf(xs: seq<real>, order: seq<nat>, i: nat) returns (j: nat)
    requires i < |order| && forall p :: 0 <= p < |order| ==> order[p] < |xs|
    ensures i <= j < |order| && IsBlock(xs, order, i, j) && BlockBegins(xs, order, j + 1)
  {
    j := i;
    while j + 1 < |order| && xs[order[j + 1]] == xs[order[i]]
      invariant i <= j < |order| && IsBlock(xs, order, i, j)
    {
      j := j + 1;
    }
  }

  /** The positions in an order of their values, each of them once. */
  ghost predicate Orders(xs: seq<real>, order: seq<nat>) {
    && |order| == |xs| && (forall p :: 0 <= p < |order| ==> order[p] < |xs|)
    && Distinct(order) && (forall i: nat :: i < |xs| ==> Has(order, i))
    && Sorted(Values(xs, order))
    && forall v :: Below(Values(xs, order), v) == Below(xs, v) && Equal(Values(xs, order), v) == Equal(xs, v)
  }

  lemma OrderOrders(xs: seq<real>)
    ensures Orders(xs, Order(xs, |xs|))
  {
    OrderHasAll(xs, |xs|);
    OrderSorts(xs, |xs|);
    forall v: real ensures Below(Values(xs, Order(xs, |xs|)), v) == Below(xs, v)
                   ensures Equal(Values(xs, Order(xs, |xs|)), v) == Equal(xs, v) {
      AllCounts(xs, v);
    }
  }

  /** The ranks: each value's is how many are less and the middle of its equals; together they sum to
      n(n-1)/2, and comparing them is comparing the values. */
  method Ranks(xs: seq<real>) returns (out: array<real>)
    ensures out.Length == |xs| && forall a :: 0 <= a < |xs| ==> out[a] == RankOf(xs, xs[a])
    ensures Sum(out[..]) == PairsOf(|xs|)
  {
    OrderOrders(xs);
    out := RanksInOrder(xs, Order(xs, |xs|));
    RanksSum(xs, out[..]);
  }

  /** Ranks the block that begins at `i`; returns where the next begins. */
  method RankFrom(xs: seq<real>, order: seq<nat>, out: array<real>, i: nat) returns (next: nat)
    requires Orders(xs, order) && i < |order| && out.Length == |xs| && BlockBegins(xs, order, i)
    requires RankedTo(xs, order, out[..], i)
    modifies out
    ensures i < next <= |order| && BlockBegins(xs, order, next) && RankedTo(xs, order, out[..], next)
  {
    var j := BlockOf(xs, order, i);
    OrderedBlockRank(xs, order, i, j);
    RankBlock(xs, order, out, i, j);
    next := j + 1;
  }

  method RanksInOrder(xs: seq<real>, order: seq<nat>) returns (out: array<real>)
    requires Orders(xs, order)
    ensures out.Length == |xs| && forall a :: 0 <= a < |xs| ==> out[a] == RankOf(xs, xs[a])
  {
    out := new real[|xs|](_ => 0.0);
    var i := 0;
    while i < |order|
      invariant 0 <= i <= |order|
      invariant BlockBegins(xs, order, i)
      invariant RankedTo(xs, order, out[..], i)
    {
      i := RankFrom(xs, order, out, i);
    }
    EveryoneRanked(xs, order, out[..]);
  }

  /** Position `i` begins a block of equal values. */
  predicate BlockBegins(xs: seq<real>, order: seq<nat>, i: nat)
    requires forall p :: 0 <= p < |order| ==> order[p] < |xs|
  {
    0 < i < |order| ==> xs[order[i - 1]] != xs[order[i]]
  }

  /** The positions from `i` to `j` hold equal values. */
  predicate IsBlock(xs: seq<real>, order: seq<nat>, i: nat, j: nat)
    requires i < |order| && j < |order| && forall p :: 0 <= p < |order| ==> order[p] < |xs|
  {
    forall k :: i <= k <= j ==> xs[order[k]] == xs[order[i]]
  }

  lemma OrderedBlockRank(xs: seq<real>, order: seq<nat>, i: nat, j: nat)
    requires i <= j < |order| && forall p :: 0 <= p < |order| ==> order[p] < |xs|
    requires BlockBegins(xs, order, i) && BlockBegins(xs, order, j + 1) && IsBlock(xs, order, i, j)
    requires Sorted(Values(xs, order))
    requires Below(Values(xs, order), xs[order[i]]) == Below(xs, xs[order[i]])
    requires Equal(Values(xs, order), xs[order[i]]) == Equal(xs, xs[order[i]])
    ensures forall p :: i <= p <= j ==> RankOf(xs, xs[order[p]]) == (i + j) as real / 2.0
  {
    BlockRank(xs, Values(xs, order), i, j);
  }

  lemma EveryoneRanked(xs: seq<real>, order: seq<nat>, out: seq<real>)
    requires |out| == |xs| && (forall i: nat :: i < |xs| ==> Has(order, i)) && RankedTo(xs, order, out, |order|)
    ensures forall a :: 0 <= a < |xs| ==> out[a] == RankOf(xs, xs[a])
  {
    forall a | 0 <= a < |xs| ensures out[a] == RankOf(xs, xs[a]) {
      assert Has(order, a);
      var p :| 0 <= p < |order| && order[p] == a;
    }
  }
}
