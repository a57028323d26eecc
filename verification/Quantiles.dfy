/** Nearest-rank quantiles, and the size model whose base is raised to one. */
module Quantiles {
  import opened Options
  import opened Arithmetic
  import opened Ranks

  // --- Nearest rank -----------------------------------------------------------------------

  function SortedValues(xs: seq<real>): (ys: seq<real>)
    ensures |ys| == |xs|
  {
    if xs == [] then [] else InsertedInto(SortedValues(xs[1..]), xs[0])
  }

  function InsertedInto(ys: seq<real>, v: real): (zs: seq<real>)
    ensures |zs| == |ys| + 1
  {
    InsertedLength(ys, v);
    InsertedValue(ys, v)
  }

  lemma {:induction false} InsertedLength(ys: seq<real>, v: real)
    ensures |InsertedValue(ys, v)| == |ys| + 1
  {
    if ys != [] && v >= ys[0] {
      InsertedLength(ys[1..], v);
    }
  }

  /** How many of `xs` are at most `v`. */
  function AtMost(xs: seq<real>, v: real): nat { Below(xs, v) + Equal(xs, v) }

  lemma {:induction false} SortedValuesCount(xs: seq<real>, v: real)
    ensures Sorted(SortedValues(xs)) && AtMost(SortedValues(xs), v) == AtMost(xs, v)
  {
    if xs != [] {
      SortedValuesCount(xs[1..], v);
      InsertedValueSorted(SortedValues(xs[1..]), xs[0]);
      InsertedValueCounts(SortedValues(xs[1..]), xs[0], v);
    }
  }

  function Ceil(x: real): int { -((-x).Floor) }

  function RankIndex(n: nat, quantile: real): nat {
    if Ceil(quantile * n as real) >= 1 then Ceil(quantile * n as real) - 1 else 0
  }

  /** None for no values; a quantile above 1 can index beyond them (the source's IndexError). */
  datatype Ranked = NoValues | OutOfRange | Value(v: real)

  function NearestRank(values: seq<real>, quantile: real): Ranked {
    var sorted := SortedValues(values);
    if sorted == [] then NoValues
    else if RankIndex(|values|, quantile) >= |values| then OutOfRange
    else Value(sorted[RankIndex(|values|, quantile)])
  }

  lemma {:induction false} AtMostInSorted(ys: seq<real>, k: nat)
    requires Sorted(ys) && k < |ys|
    ensures AtMost(ys, ys[k]) >= k + 1
  {
    if k > 0 {
      AtMostInSorted(ys[1..], k - 1);
      SortedAt(ys, 0, k);
    }
  }

  lemma {:induction false} FewAtMostLess(ys: seq<real>, k: nat, u: real)
    requires Sorted(ys) && k < |ys| && u < ys[k]
    ensures AtMost(ys, u) <= k
  {
    if k > 0 {
      FewAtMostLess(ys[1..], k - 1, u);
    } else {
      forall p | 0 <= p < |ys| ensures ys[p] > u {
        SortedAt(ys, 0, p);
      }
      CountsAllAbove(ys, u);
    }
  }

  lemma CeilIsLeast(x: real, c: int)
    ensures c as real >= x <==> c >= Ceil(x)
  {
    var f := (-x).Floor;
    assert f as real <= -x < f as real + 1.0;
  }

  lemma ShareOfAll(quantile: real, n: nat)
    requires 0.0 < quantile <= 1.0 && n > 0
    ensures 0.0 < quantile * n as real <= n as real
  {
    var m := n as real;
    assert m - quantile * m == (1.0 - quantile) * m;
  }

  lemma SortedRank(values: seq<real>, need: real)
    requires 0.0 < need <= |values| as real
    ensures 0 <= Ceil(need) - 1 < |values|
    ensures var v := SortedValues(values)[Ceil(need) - 1];
            AtMost(values, v) as real >= need && forall u: real :: AtMost(values, u) as real >= need ==> v <= u
  {
    var ys := SortedValues(values);
    CeilIsLeast(need, |values|);
    CeilIsLeast(need, 0);
    var k := Ceil(need) - 1;
    SortedValuesCount(values, ys[k]);
    AtMostInSorted(ys, k);
    CeilIsLeast(need, AtMost(values, ys[k]));
    forall u: real | AtMost(values, u) as real >= need ensures ys[k] <= u {
      CeilIsLeast(need, AtMost(values, u));
      SortedValuesCount(values, u);
      if u < ys[k] {
        FewAtMostLess(ys, k, u);
      }
    }
  }

  /** `count` of `n` are at least the share `quantile`. */
  predicate HasShare(count: nat, quantile: real, n: nat) { count as real >= quantile * n as real }

  /** The nearest rank is the least number with at least the given share of the values at or below it. */
  lemma NearestRankIsLeast(values: seq<real>, quantile: real)
    requires values != [] && 0.0 < quantile <= 1.0
    ensures var r := NearestRank(values, quantile);
            && r.Value?
            && HasShare(AtMost(values, r.v), quantile, |values|)
            && forall u: real :: HasShare(AtMost(values, u), quantile, |values|) ==> r.v <= u
  {
    ShareOfAll(quantile, |values|);
    SortedRank(values, quantile * |values| as real);
  }

  /** There is none exactly without values, and with values it is out of range exactly for a quantile above 1; for one
      that is not above 0 it is the least value. */
  lemma NearestRankOutside(values: seq<real>, quantile: real)
    ensures NearestRank(values, quantile).NoValues? <==> values == []
    ensures NearestRank(values, quantile).OutOfRange? <==> values != [] && quantile > 1.0
    ensures values != [] && quantile <= 0.0 ==>
              var r := NearestRank(values, quantile); r.Value? && forall v :: v in values ==> r.v <= v
  {
    var n := |values|;
    SortedMembers(values);
    SortedValuesCount(values, 0.0);
    RankRange(quantile, n);
    var ys := SortedValues(values);
    if n > 0 && quantile <= 0.0 {
      forall v | v in values ensures ys[0] <= v {
        assert v in ys;
      }
    }
  }

  lemma RankRange(quantile: real, n: nat)
    ensures n > 0 ==> (RankIndex(n, quantile) >= n <==> quantile > 1.0)
    ensures quantile <= 0.0 ==> RankIndex(n, quantile) == 0
  {
    var need := quantile * n as real;
    if quantile > 1.0 {
      Scaled(quantile - 1.0, n);
      assert need - n as real == (quantile - 1.0) * n as real;
    } else if quantile > 0.0 {
      Scaled(1.0 - quantile, n);
      assert n as real - need == (1.0 - quantile) * n as real;
    } else {
      Scaled(-quantile, n);
      assert -need == (-quantile) * n as real;
    }
  }

  lemma Scaled(x: real, n: nat)
    requires x >= 0.0
    ensures x * n as real >= 0.0 && (x > 0.0 && n > 0 ==> x * n as real > 0.0)
  {
  }

  /** And it is one of the values. */
  lemma NearestRankIsMember(values: seq<real>, quantile: real)
    requires NearestRank(values, quantile).Value?
    ensures NearestRank(values, quantile).v in values
  {
    SortedMembers(values);
    var ys := SortedValues(values);
    assert ys[RankIndex(|values|, quantile)] in ys;
  }

  lemma {:induction false} InsertedMembers(ys: seq<real>, v: real)
    ensures forall w :: w in InsertedValue(ys, v) <==> w == v || w in ys
  {
    if ys != [] && v >= ys[0] {
      InsertedMembers(ys[1..], v);
    }
  }

  lemma {:induction false} SortedMembers(xs: seq<real>)
    ensures forall w :: w in SortedValues(xs) <==> w in xs
  {
    if xs != [] {
      SortedMembers(xs[1..]);
      InsertedMembers(SortedValues(xs[1..]), xs[0]);
    }
  }

  // --- The size model ---------------------------------------------------------------------

  datatype Point = Point(x: real, y: real)

  datatype Line = Line(base: real, slope: real)

  function Xs(ps: seq<Point>): (xs: seq<real>)
    ensures |xs| == |ps| && forall i :: 0 <= i < |ps| ==> xs[i] == ps[i].x
  {
    seq(|ps|, i requires 0 <= i < |ps| => ps[i].x)
  }

  function Ys(ps: seq<Point>): (ys: seq<real>)
    ensures |ys| == |ps| && forall i :: 0 <= i < |ps| ==> ys[i] == ps[i].y
  {
    seq(|ps|, i requires 0 <= i < |ps| => ps[i].y)
  }

  function Ones(n: nat): (ones: seq<real>)
    ensures |ones| == n && forall i :: 0 <= i < n ==> ones[i] == 1.0
  {
    seq(n, _ => 1.0)
  }

  /** The sum of the products. */
  function Dot(u: seq<real>, v: seq<real>): real
    requires |u| == |v|
  {
    if u == [] then 0.0 else u[0] * v[0] + Dot(u[1..], v[1..])
  }

  /** `s` times `u` and `t` times `v`. */
  function Mix(s: real, u: seq<real>, t: real, v: seq<real>): (w: seq<real>)
    requires |u| == |v|
    ensures |w| == |u| && forall i :: 0 <= i < |u| ==> w[i] == s * u[i] + t * v[i]
  {
    seq(|u|, i requires 0 <= i < |u| => s * u[i] + t * v[i])
  }

  function Mean(u: seq<real>): real
    requires u != []
  {
    Sum(u) / |u| as real
  }

  /** The deviations from `m`. */
  function Deviations(u: seq<real>, m: real): (d: seq<real>)
    ensures |d| == |u|
  {
    Mix(1.0, u, -m, Ones(|u|))
  }

  function Spread(ps: seq<Point>): real
    requires ps != []
  {
    var dx := Deviations(Xs(ps), Mean(Xs(ps)));
    Dot(dx, dx)
  }

  function Slope(ps: seq<Point>): (slope: real)
    requires ps != []
    ensures slope >= 0.0
  {
    SlopeFrom(Dot(Deviations(Ys(ps), Mean(Ys(ps))), Deviations(Xs(ps), Mean(Xs(ps)))), Spread(ps))
  }

  function SlopeFrom(product: real, spread: real): (slope: real)
    ensures slope >= 0.0
  {
    if spread == 0.0 then 0.0 else if product / spread >= 0.0 then product / spread else 0.0
  }

  /** The residuals of the line through the origin. */
  function Residuals(ps: seq<Point>, slope: real): (rs: seq<real>)
    ensures |rs| == |ps|
  {
    if ps == [] then [] else [ps[0].y - slope * ps[0].x] + Residuals(ps[1..], slope)
  }

  /** The size model before its rounding; None below three points. */
  function Fit(ps: seq<Point>, quantile: real): Option<Line> {
    if |ps| < 3 then None
    else
      var slope := Slope(ps);
      var base := NearestRank(Residuals(ps, slope), quantile);
      if base.Value? then Some(Line(base.v, slope)) else None
  }

  /** How many points lie at or below the line. */
  function Covered(ps: seq<Point>, line: Line): nat {
    if ps == [] then 0 else (if ps[0].y <= line.base + line.slope * ps[0].x then 1 else 0) + Covered(ps[1..], line)
  }

  lemma {:induction false} CoveredByResiduals(ps: seq<Point>, line: Line)
    ensures Covered(ps, line) == AtMost(Residuals(ps, line.slope), line.base)
  {
    if ps != [] {
      CoveredByResiduals(ps[1..], line);
      assert Residuals(ps, line.slope)[1..] == Residuals(ps[1..], line.slope);
    }
  }

  /** At least the given share of the points lie at or below the fitted line, and no lower line of its slope
      has that many. */
  lemma FitCoversQuantile(ps: seq<Point>, quantile: real)
    requires |ps| >= 3 && 0.0 < quantile <= 1.0
    ensures var line := Fit(ps, quantile);
            && line.Some? && line.value.slope == Slope(ps)
            && HasShare(Covered(ps, line.value), quantile, |ps|)
            && forall base: real :: HasShare(Covered(ps, Line(base, line.value.slope)), quantile, |ps|) ==>
                 line.value.base <= base
  {
    var slope := Slope(ps);
    var rs := Residuals(ps, slope);
    NearestRankIsLeast(rs, quantile);
    var line := Fit(ps, quantile).value;
    CoveredByResiduals(ps, line);
    forall base: real | HasShare(Covered(ps, Line(base, slope)), quantile, |ps|) ensures line.base <= base {
      CoveredByResiduals(ps, Line(base, slope));
    }
  }

  // --- Least squares ------------------------------------------------------------------------

  /** The residuals of the line `y = a + b x`. */
  function ErrorsOf(ps: seq<Point>, a: real, b: real): (es: seq<real>)
    ensures |es| == |ps|
  {
    Mix(1.0, Mix(1.0, Ys(ps), -b, Xs(ps)), -a, Ones(|ps|))
  }

  /** The squared error of the line. */
  function SquaredError(ps: seq<Point>, a: real, b: real): real { Dot(ErrorsOf(ps, a, b), ErrorsOf(ps, a, b)) }

  lemma Positive(x: real, y: real, product: real)
    requires x > 0.0 && y > 0.0 && product == x * y
    ensures product > 0.0
  {
  }

  lemma SquareOfSome(u: real, square: real)
    requires u != 0.0 && square == u * u
    ensures square > 0.0
  {
    if u > 0.0 {
      Positive(u, u, square);
    } else {
      Positive(-u, -u, square);
    }
  }

  lemma Square(u: real)
    ensures u * u >= 0.0
  {
    if u != 0.0 {
      SquareOfSome(u, u * u);
    }
  }

  lemma NothingLeft(u: real, rest: real)
    requires rest >= 0.0 && u * u + rest == 0.0
    ensures u == 0.0 && rest == 0.0
  {
    var square := u * u;
    Square(u);
    assert square == 0.0 && rest == 0.0;
    if u != 0.0 {
      SquareOfSome(u, square);
    }
  }

  lemma {:induction false} DotOfSelf(u: seq<real>)
    ensures Dot(u, u) >= 0.0 && (Dot(u, u) == 0.0 ==> forall i :: 0 <= i < |u| ==> u[i] == 0.0)
  {
    if u != [] {
      var rest := u[1..];
      Square(u[0]);
      DotOfSelf(rest);
      assert Dot(u, u) == u[0] * u[0] + Dot(rest, rest);
      if Dot(u, u) == 0.0 {
        NothingLeft(u[0], Dot(rest, rest));
        forall i | 0 <= i < |u| ensures u[i] == 0.0 {
          assert i > 0 ==> u[i] == rest[i - 1];
        }
      }
    }
  }

  lemma {:induction false} DotOfZeros(u: seq<real>, v: seq<real>)
    requires |u| == |v| && forall i :: 0 <= i < |v| ==> v[i] == 0.0
    ensures Dot(u, v) == 0.0
  {
    if u != [] {
      DotOfZeros(u[1..], v[1..]);
    }
  }

  lemma {:induction false} DotBothWays(u: seq<real>, v: seq<real>)
    requires |u| == |v|
    ensures Dot(u, v) == Dot(v, u)
  {
    if u != [] {
      DotBothWays(u[1..], v[1..]);
    }
  }

  lemma OneTerm(s: real, u: real, t: real, v: real, w: real, du: real, dv: real)
    ensures (s * u + t * v) * w + (s * du + t * dv) == s * (u * w + du) + t * (v * w + dv)
  {
  }

  lemma MixTail(s: real, u: seq<real>, t: real, v: seq<real>)
    requires |u| == |v| && u != []
    ensures Mix(s, u, t, v)[1..] == Mix(s, u[1..], t, v[1..])
  {
    var w, w' := Mix(s, u, t, v), Mix(s, u[1..], t, v[1..]);
    forall i | 0 <= i < |w'| ensures w[1..][i] == w'[i] {
      assert u[1..][i] == u[i + 1] && v[1..][i] == v[i + 1];
      assert w[1..][i] == w[i + 1];
    }
  }

  lemma {:induction false} DotOfMix(s: real, u: seq<real>, t: real, v: seq<real>, w: seq<real>)
    requires |u| == |v| == |w|
    ensures Dot(Mix(s, u, t, v), w) == s * Dot(u, w) + t * Dot(v, w)
  {
    if u != [] {
      DotOfMix(s, u[1..], t, v[1..], w[1..]);
      MixTail(s, u, t, v);
      OneTerm(s, u[0], t, v[0], w[0], Dot(u[1..], w[1..]), Dot(v[1..], w[1..]));
    }
  }

  lemma {:induction false} DotWithOnes(u: seq<real>)
    ensures Dot(u, Ones(|u|)) == Sum(u)
  {
    if u != [] {
      DotWithOnes(u[1..]);
      assert Ones(|u|)[1..] == Ones(|u[1..]|);
    }
  }

  lemma {:induction false} DotOfOnes(n: nat)
    ensures Dot(Ones(n), Ones(n)) == n as real
  {
    if n > 0 {
      DotOfOnes(n - 1);
      assert Ones(n)[1..] == Ones(n - 1);
    }
  }

  lemma WholeOfMean(u: seq<real>)
    requires u != []
    ensures |u| as real * Mean(u) == Sum(u)
  {
    Whole(Sum(u), |u| as real);
  }

  lemma Whole(sum: real, n: real)
    requires n > 0.0
    ensures n * (sum / n) == sum
  {
  }

  /** Deviations from the mean sum to nothing. */
  lemma DeviationsCancel(u: seq<real>)
    requires u != []
    ensures Dot(Deviations(u, Mean(u)), Ones(|u|)) == 0.0
  {
    DotOfMix(1.0, u, -Mean(u), Ones(|u|), Ones(|u|));
    DotWithOnes(u);
    DotOfOnes(|u|);
    WholeOfMean(u);
  }

  /** The errors of a line through a point are made of the deviations from it. */
  lemma ErrorsThrough(ps: seq<Point>, b: real, mx: real, my: real, a: real)
    requires a == my - b * mx
    ensures ErrorsOf(ps, a, b) == Mix(1.0, Deviations(Ys(ps), my), -b, Deviations(Xs(ps), mx))
  {
    var dx, dy := Deviations(Xs(ps), mx), Deviations(Ys(ps), my);
    var es, ds := ErrorsOf(ps, a, b), Mix(1.0, dy, -b, dx);
    forall i | 0 <= i < |ps| ensures es[i] == ds[i] {
      ErrorAt(ps, a, b, i);
      DeviationAt(Xs(ps), mx, i);
      DeviationAt(Ys(ps), my, i);
      MixAt(1.0, dy, -b, dx, i);
      OneDeviation(ps[i].x, ps[i].y, mx, my, b, a);
    }
  }

  lemma MixAt(s: real, u: seq<real>, t: real, v: seq<real>, i: nat)
    requires |u| == |v| && i < |u|
    ensures Mix(s, u, t, v)[i] == s * u[i] + t * v[i]
  {
  }

  lemma ErrorAt(ps: seq<Point>, a: real, b: real, i: nat)
    requires i < |ps|
    ensures ErrorsOf(ps, a, b)[i] == ps[i].y - b * ps[i].x - a
  {
    assert Mix(1.0, Ys(ps), -b, Xs(ps))[i] == 1.0 * ps[i].y + -b * ps[i].x;
  }

  lemma DeviationAt(u: seq<real>, m: real, i: nat)
    requires i < |u|
    ensures Deviations(u, m)[i] == u[i] - m
  {
  }

  lemma OneDeviation(x: real, y: real, mx: real, my: real, b: real, a: real)
    requires a == my - b * mx
    ensures y - b * x - a == 1.0 * (y - my) + -b * (x - mx)
  {
  }

  /** Another line's errors are these less what the change adds. */
  lemma ErrorsOfAnotherLine(ps: seq<Point>, a: real, b: real, a': real, b': real)
    ensures ErrorsOf(ps, a', b') == Mix(1.0, ErrorsOf(ps, a, b), -1.0, Mix(a' - a, Ones(|ps|), b' - b, Xs(ps)))
  {
    var es, ds := ErrorsOf(ps, a', b'), Mix(1.0, ErrorsOf(ps, a, b), -1.0, Mix(a' - a, Ones(|ps|), b' - b, Xs(ps)));
    forall i | 0 <= i < |ps| ensures es[i] == ds[i] {
      assert es[i] == ps[i].y - b' * ps[i].x - a';
      assert ds[i] == (ps[i].y - b * ps[i].x - a) - ((a' - a) + (b' - b) * ps[i].x);
    }
  }

  lemma OnceLessOnce(x: real, y: real, z: real)
    requires z == 1.0 * x + -1.0 * y
    ensures z == x - y
  {
  }

  lemma DifferenceWith(e: seq<real>, d: seq<real>, u: seq<real>)
    requires |e| == |d| == |u|
    ensures Dot(u, Mix(1.0, e, -1.0, d)) == Dot(e, u) - Dot(d, u)
  {
    var f := Mix(1.0, e, -1.0, d);
    DotOfMix(1.0, e, -1.0, d, u);
    OnceLessOnce(Dot(e, u), Dot(d, u), Dot(f, u));
    DotBothWays(u, f);
  }

  /** A change `d` of the errors `e` lowers their squares by twice what the two have in common, at most. */
  lemma SquaresOfDifference(e: seq<real>, d: seq<real>)
    requires |e| == |d|
    ensures var f := Mix(1.0, e, -1.0, d); Dot(f, f) >= Dot(e, e) - 2.0 * Dot(e, d)
  {
    var f := Mix(1.0, e, -1.0, d);
    DotOfMix(1.0, e, -1.0, d, f);
    DifferenceWith(e, d, e);
    DifferenceWith(e, d, d);
    DotBothWays(e, d);
    DotOfSelf(d);
  }

  /** What a change of the slope has in common with the errors. */
  function Gain(change: real, product: real, slope: real, spread: real): real { change * (product - slope * spread) }

  /** Where the source puts the slope, a larger one gains nothing, and neither does a smaller one of at least 0. */
  lemma SlopeGainsNothing(product: real, spread: real, slope: real, b: real)
    requires b >= 0.0 && spread >= 0.0 && (spread == 0.0 ==> product == 0.0) && slope == SlopeFrom(product, spread)
    ensures Gain(b - slope, product, slope, spread) <= 0.0
  {
    if spread > 0.0 {
      var r := product / spread;
      assert product == r * spread;
      if r >= 0.0 {
        assert product - slope * spread == 0.0;
      } else {
        assert r * spread < 0.0;
        assert b * product <= 0.0;
      }
    }
  }

  /** The part a change has in common with the errors made of deviations that cancel. */
  lemma ChangeInCommon(xs: seq<real>, dx: seq<real>, dy: seq<real>, mx: real, b: real, da: real, db: real)
    requires |xs| == |dx| == |dy| && dx == Deviations(xs, mx)
    requires Dot(dx, Ones(|xs|)) == 0.0 && Dot(dy, Ones(|xs|)) == 0.0
    ensures Dot(Mix(1.0, dy, -b, dx), Mix(da, Ones(|xs|), db, xs)) == Gain(db, Dot(dy, dx), b, Dot(dx, dx))
  {
    var ones := Ones(|xs|);
    var e := Mix(1.0, dy, -b, dx);
    DotOfMix(da, ones, db, xs, e);
    DotBothWays(e, Mix(da, ones, db, xs));
    DotOfMix(1.0, dy, -b, dx, ones);
    DotBothWays(e, ones);
    assert Dot(ones, e) == 0.0;
    DotOfMix(1.0, xs, -mx, ones, e);
    DotBothWays(e, dx);
    DotOfMix(1.0, dy, -b, dx, dx);
    assert Dot(xs, e) == Dot(e, dx);
  }

  lemma ErrorsGainNothing(xs: seq<real>, dx: seq<real>, dy: seq<real>, mx: real, slope: real, da: real, b: real)
    requires |xs| == |dx| == |dy| && dx == Deviations(xs, mx) && b >= 0.0
    requires Dot(dx, Ones(|xs|)) == 0.0 && Dot(dy, Ones(|xs|)) == 0.0
    requires slope == SlopeFrom(Dot(dy, dx), Dot(dx, dx))
    ensures Dot(Mix(1.0, dy, -slope, dx), Mix(da, Ones(|xs|), b - slope, xs)) <= 0.0
  {
    ChangeInCommon(xs, dx, dy, mx, slope, da, b - slope);
    NoSpreadNoProduct(dy, dx);
    SlopeGainsNothing(Dot(dy, dx), Dot(dx, dx), slope, b);
  }

  /** The fitted slope's errors gain nothing from a change to another slope of at least 0. */
  lemma ChangeGainsNothing(ps: seq<Point>, a: real, da: real, b: real, slope: real, mx: real, my: real)
    requires ps != [] && b >= 0.0 && mx == Mean(Xs(ps)) && my == Mean(Ys(ps)) && slope == Slope(ps)
    requires a == my - slope * mx
    ensures Dot(ErrorsOf(ps, a, slope), Mix(da, Ones(|ps|), b - slope, Xs(ps))) <= 0.0
  {
    ErrorsThrough(ps, slope, mx, my, a);
    DeviationsCancel(Xs(ps));
    DeviationsCancel(Ys(ps));
    ErrorsGainNothing(Xs(ps), Deviations(Xs(ps), mx), Deviations(Ys(ps), my), mx, slope, da, b);
  }

  lemma NoSpreadNoProduct(dy: seq<real>, dx: seq<real>)
    requires |dy| == |dx|
    ensures Dot(dx, dx) >= 0.0 && (Dot(dx, dx) == 0.0 ==> Dot(dy, dx) == 0.0)
  {
    DotOfSelf(dx);
    if Dot(dx, dx) == 0.0 {
      DotOfZeros(dy, dx);
    }
  }

  /** The slope is the least-squares one: no line that does not fall has a smaller squared error than the one
      of this slope through the means. */
  lemma SlopeIsLeastSquares(ps: seq<Point>, a: real, b: real)
    requires ps != [] && b >= 0.0
    ensures var slope := Slope(ps);
            SquaredError(ps, Mean(Ys(ps)) - slope * Mean(Xs(ps)), slope) <= SquaredError(ps, a, b)
  {
    LeastError(ps, a, b, Slope(ps), Mean(Xs(ps)), Mean(Ys(ps)), Mean(Ys(ps)) - Slope(ps) * Mean(Xs(ps)));
  }

  lemma LeastError(ps: seq<Point>, a: real, b: real, slope: real, mx: real, my: real, best: real)
    requires ps != [] && b >= 0.0 && mx == Mean(Xs(ps)) && my == Mean(Ys(ps)) && slope == Slope(ps)
    requires best == my - slope * mx
    ensures SquaredError(ps, best, slope) <= SquaredError(ps, a, b)
  {
    ErrorsOfAnotherLine(ps, best, slope, a, b);
    SquaresOfDifference(ErrorsOf(ps, best, slope), Mix(a - best, Ones(|ps|), b - slope, Xs(ps)));
    ChangeGainsNothing(ps, best, a - best, b, slope, mx, my);
  }
}
