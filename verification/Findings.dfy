/** Whose finding a DRC finding is: ours, or the reference's at the same place. */
module Findings {
  import opened Options
  import opened Texts
  import opened Sequences

  const SAME_PLACE_MM := 0.05
  const KICAD_FINDING_CAP := 199

  datatype Point = Point(x: real, y: real)

  /** One item of a finding. `owner` and `onMask` are what the source's regular expressions read off the
      description: the footprint it names, and whether it is a pad or lies on a mask layer. */
  datatype Item = Item(uuid: Option<string>, at: Option<Point>, description: string, text: string,
                       owner: Option<string>, onMask: bool)

  datatype Finding = Finding(kind: string, items: seq<Item>)

  predicate ZoneItem(item: Item) { StartsWith(item.description, "Zone") }

  predicate OutlineItem(item: Item) { EndsWith(item.description, "on Edge.Cuts") }

  function Located(item: Item): Option<Point> {
    if ZoneItem(item) && item.at == Some(Point(0.0, 0.0)) then None else item.at
  }

  // --- Distances ----------------------------------------------------------------------

  /** The square of the distance. */
  function Apart(a: Point, b: Point): (square: real)
    ensures square >= 0.0
  {
    (a.x - b.x) * (a.x - b.x) + (a.y - b.y) * (a.y - b.y)
  }

  predicate Near(a: Point, b: Point) { Apart(a, b) <= SAME_PLACE_MM * SAME_PLACE_MM }

  /** Whether two distances with the squares `s` and `t` differ by at most `SAME_PLACE_MM`. */
  predicate SameDistance(s: real, t: real) {
    var rest := s + t - SAME_PLACE_MM * SAME_PLACE_MM;
    rest <= 0.0 || rest * rest <= 4.0 * s * t
  }

  lemma SquareAtMost(a: real, b: real)
    requires a >= 0.0 && b >= 0.0
    ensures a * a <= b * b <==> a <= b
  {
    if a <= b {
      Product(b - a, b + a);
      assert (b - a) * (b + a) == b * b - a * a;
    } else {
      var x, y := a - b, a + b;
      Product(x, y);
      assert x * y > 0.0;
      assert x * y == a * a - b * b;
    }
  }

  lemma Product(x: real, y: real)
    requires x >= 0.0 && y >= 0.0
    ensures x * y >= 0.0
    ensures x > 0.0 && y > 0.0 ==> x * y > 0.0
  {
  }

  /** `SameDistance` says it of the distances themselves. */
  lemma SameDistanceMeans(d: real, e: real)
    requires d >= 0.0 && e >= 0.0
    ensures SameDistance(d * d, e * e) <==> -SAME_PLACE_MM <= d - e <= SAME_PLACE_MM
  {
    var tol := SAME_PLACE_MM;
    var rest := d * d + e * e - tol * tol;
    var twice := 2.0 * d * e;
    Product(d, e);
    assert twice == 2.0 * (d * e);
    assert 4.0 * (d * d) * (e * e) == twice * twice;
    assert rest <= twice <==> (d - e) * (d - e) <= tol * tol by {
      assert (d - e) * (d - e) == d * d + e * e - twice;
    }
    if rest > 0.0 {
      SquareAtMost(rest, twice);
    }
    if d >= e {
      SquareAtMost(d - e, tol);
    } else {
      SquareAtMost(e - d, tol);
      assert (d - e) * (d - e) == (e - d) * (e - d);
    }
  }

  // --- The same place -----------------------------------------------------------------

  function NoOutline(items: seq<Item>): seq<Item> {
    if items == [] then []
    else if OutlineItem(items[0]) then NoOutline(items[1..])
    else [items[0]] + NoOutline(items[1..])
  }

  function Uuids(items: seq<Item>): seq<Option<string>> {
    seq(|items|, i requires 0 <= i < |items| => items[i].uuid)
  }

  /** Where the last item with `uuid` is, as a dictionary built from the items has it. */
  function PlaceOfUuid(items: seq<Item>, uuid: Option<string>): Option<Point> {
    if items == [] then None
    else if items[|items| - 1].uuid == uuid then items[|items| - 1].at
    else PlaceOfUuid(items[..|items| - 1], uuid)
  }

  predicate PairKept(ours: seq<Item>, theirs: seq<Item>, first: Option<string>, second: Option<string>) {
    var a, b := PlaceOfUuid(ours, first), PlaceOfUuid(ours, second);
    var c, d := PlaceOfUuid(theirs, first), PlaceOfUuid(theirs, second);
    a.None? || b.None? || c.None? || d.None? || SameDistance(Apart(a.value, b.value), Apart(c.value, d.value))
  }

  /** The same items, moved together. */
  predicate MovedTogether(ours: seq<Item>, theirs: seq<Item>) {
    && None !in Uuids(ours) && None !in Uuids(theirs)
    && multiset(Uuids(ours)) == multiset(Uuids(theirs))
    && forall i, j :: 0 <= i < j < |ours| ==> PairKept(ours, theirs, ours[i].uuid, ours[j].uuid)
  }

  /** The first unused item of `theirs` near `at`, from `from` on. */
  function FirstNear(at: Point, theirs: seq<Item>, used: seq<bool>, from: nat): (i: Option<nat>)
    requires |used| == |theirs| && from <= |theirs|
    ensures i.Some? ==>
              && from <= i.value < |theirs| && !used[i.value] && theirs[i.value].at.Some?
              && Near(at, theirs[i.value].at.value)
    ensures i.Some? ==> forall k :: from <= k < i.value ==>
              used[k] || theirs[k].at.None? || !Near(at, theirs[k].at.value)
    ensures i.None? ==> forall k :: from <= k < |theirs| ==>
              used[k] || theirs[k].at.None? || !Near(at, theirs[k].at.value)
    decreases |theirs| - from
  {
    if from == |theirs| then None
    else if !used[from] && theirs[from].at.Some? && Near(at, theirs[from].at.value) then Some(from)
    else FirstNear(at, theirs, used, from + 1)
  }

  /** Each item takes the first free one near it. */
  predicate AllNear(ours: seq<Item>, theirs: seq<Item>, used: seq<bool>)
    requires |used| == |theirs|
  {
    ours == [] ||
    (ours[0].at.Some? &&
     var i := FirstNear(ours[0].at.value, theirs, used, 0);
     i.Some? && AllNear(ours[1..], theirs, used[i.value := true]))
  }

  function NoneUsed(n: nat): (used: seq<bool>)
    ensures |used| == n && forall i :: 0 <= i < n ==> !used[i]
  {
    seq(n, _ => false)
  }

  /** The place of two findings of one type with these items. */
  predicate SameItems(ours: seq<Item>, theirs: seq<Item>) {
    if ours == [] || |ours| != |theirs| then false
    else if |ours| == 1 then
      var mine, reference := ours[0], theirs[0];
      var here, there := Located(mine), Located(reference);
      || (here.Some? && there.Some? && Near(here.value, there.value))
      || (mine.uuid.Some? && mine.uuid == reference.uuid && !ZoneItem(mine) && mine.text != ""
          && mine.text == reference.text)
    else
      MovedTogether(ours, theirs) || AllNear(ours, theirs, NoneUsed(|theirs|))
  }

  /** The items that decide the place: of a clearance to the board edge only the copper, where both have some. */
  predicate EdgeReduced(ours: Finding, theirs: Finding) {
    && ours.kind == "copper_edge_clearance"
    && NoOutline(ours.items) != [] && NoOutline(theirs.items) != []
    && (|NoOutline(ours.items)| != |ours.items| || |NoOutline(theirs.items)| != |theirs.items|)
  }

  predicate SamePlace(ours: Finding, theirs: Finding) {
    && ours.kind == theirs.kind && ours.items != []
    && if EdgeReduced(ours, theirs) then SameItems(NoOutline(ours.items), NoOutline(theirs.items))
       else SameItems(ours.items, theirs.items)
  }

  /** The positional matching, as the source marks it in `used`. */
  method MatchPositions(ours: seq<Item>, theirs: seq<Item>) returns (matched: bool)
    ensures matched == AllNear(ours, theirs, NoneUsed(|theirs|))
  {
    var used := new bool[|theirs|](_ => false);
    assert used[..] == NoneUsed(|theirs|);
    for k := 0 to |ours|
      invariant AllNear(ours[k..], theirs, used[..]) == AllNear(ours, theirs, NoneUsed(|theirs|))
    {
      assert ours[k..][0] == ours[k] && ours[k..][1..] == ours[k + 1..];
      var at := ours[k].at;
      if at.None? {
        return false;
      }
      var index := 0;
      while index < |theirs| && !(!used[index] && theirs[index].at.Some? && Near(at.value, theirs[index].at.value))
        invariant 0 <= index <= |theirs|
        invariant FirstNear(at.value, theirs, used[..], 0) == FirstNear(at.value, theirs, used[..], index)
      {
        index := index + 1;
      }
      if index == |theirs| {
        return false;
      }
      ghost var before := used[..];
      used[index] := true;
      assert used[..] == before[index := true];
    }
    matched := true;
  }

  // --- What a match means -------------------------------------------------------------

  ghost predicate IsMatching(ours: seq<Item>, theirs: seq<Item>, used: seq<bool>, matching: seq<nat>)
    requires |used| == |theirs|
  {
    && |matching| == |ours|
    && (forall k :: 0 <= k < |ours| ==>
          && matching[k] < |theirs| && !used[matching[k]]
          && ours[k].at.Some? && theirs[matching[k]].at.Some? && Near(ours[k].at.value, theirs[matching[k]].at.value))
    && (forall j, k :: 0 <= j < k < |matching| ==> matching[j] != matching[k])
  }

  /** A positional match pairs every item of ours with one of theirs within the tolerance, no two with the
      same one. */
  lemma {:induction false} NearGivesMatching(ours: seq<Item>, theirs: seq<Item>, used: seq<bool>)
    returns (matching: seq<nat>)
    requires |used| == |theirs| && AllNear(ours, theirs, used)
    ensures IsMatching(ours, theirs, used, matching)
  {
    if ours == [] {
      matching := [];
    } else {
      var i := FirstNear(ours[0].at.value, theirs, used, 0).value;
      var rest := NearGivesMatching(ours[1..], theirs, used[i := true]);
      matching := [i] + rest;
      forall k | 0 <= k < |rest| ensures rest[k] != i && !used[rest[k]] && ours[k + 1] == ours[1..][k] {
        assert !used[i := true][rest[k]];
      }
    }
  }

  /** No item of ours is near two of theirs that are free. */
  predicate NearOneAtMost(ours: seq<Item>, theirs: seq<Item>, used: seq<bool>)
    requires |used| == |theirs|
  {
    forall i, j, k ::
      && 0 <= i < |ours| && 0 <= j < |theirs| && 0 <= k < |theirs| && !used[j] && !used[k]
      && ours[i].at.Some? && theirs[j].at.Some? && theirs[k].at.Some?
      && Near(ours[i].at.value, theirs[j].at.value) && Near(ours[i].at.value, theirs[k].at.value) ==>
        j == k
  }

  /** Then the positional match is exact: it finds a pairing within the tolerance if and only if there is one. */
  lemma {:induction false} MatchingGivesNear(ours: seq<Item>, theirs: seq<Item>, used: seq<bool>, matching: seq<nat>)
    requires |used| == |theirs| && NearOneAtMost(ours, theirs, used) && IsMatching(ours, theirs, used, matching)
    ensures AllNear(ours, theirs, used)
  {
    if ours != [] {
      var i := FirstNear(ours[0].at.value, theirs, used, 0).value;
      assert i == matching[0];
      assert forall k :: 0 <= k < |ours[1..]| ==> ours[1..][k] == ours[k + 1] && matching[1..][k] == matching[k + 1];
      MatchingGivesNear(ours[1..], theirs, used[i := true], matching[1..]);
    }
  }

  lemma MatchIsExact(ours: seq<Item>, theirs: seq<Item>)
    requires NearOneAtMost(ours, theirs, NoneUsed(|theirs|))
    ensures AllNear(ours, theirs, NoneUsed(|theirs|))
            <==> exists matching: seq<nat> :: IsMatching(ours, theirs, NoneUsed(|theirs|), matching)
  {
    if AllNear(ours, theirs, NoneUsed(|theirs|)) {
      var matching := NearGivesMatching(ours, theirs, NoneUsed(|theirs|));
    }
    if matching: seq<nat> :| IsMatching(ours, theirs, NoneUsed(|theirs|), matching) {
      MatchingGivesNear(ours, theirs, NoneUsed(|theirs|), matching);
    }
  }

  /** Without uuids, an item at `x`. */
  function ItemAt(x: real): Item { Item(None, Some(Point(x, 0.0)), "", "", None, false) }

  /** Otherwise the match can miss a pairing: the first item takes the one that the second needs. */
  lemma MatchMissesPairing()
    ensures var ours, theirs := [ItemAt(0.02), ItemAt(-0.03)], [ItemAt(0.0), ItemAt(0.05)];
            !SameItems(ours, theirs) && IsMatching(ours, theirs, NoneUsed(2), [1, 0])
  {
    var ours, theirs := [ItemAt(0.02), ItemAt(-0.03)], [ItemAt(0.0), ItemAt(0.05)];
    var used := NoneUsed(2);
    assert FirstNear(ours[0].at.value, theirs, used, 0) == Some(0);
    assert FirstNear(ours[1].at.value, theirs, used[0 := true], 2) == None;
    assert FirstNear(ours[1].at.value, theirs, used[0 := true], 1) == None;
    assert FirstNear(ours[1].at.value, theirs, used[0 := true], 0) == None;
    assert ours[1..] == [ours[1]];
    assert !AllNear(ours[1..], theirs, used[0 := true]);
    assert Uuids(ours)[0] == None;
  }

  // --- What the same place means ------------------------------------------------------

  type Metric = (Point, Point) -> real

  /** `dist` is the distance of any two points. */
  ghost predicate IsMetric(dist: Metric) {
    forall a: Point, b: Point :: IsLength(dist(a, b), a.x - b.x, a.y - b.y)
  }

  predicate IsLength(d: real, x: real, y: real) { d >= 0.0 && d * d == x * x + y * y }

  lemma NearMeans(a: Point, b: Point, dist: Metric)
    requires IsMetric(dist)
    ensures Near(a, b) <==> dist(a, b) <= SAME_PLACE_MM
  {
    SquareAtMost(dist(a, b), SAME_PLACE_MM);
  }

  predicate DistinctUuids(items: seq<Item>) { forall i, j :: 0 <= i < j < |items| ==> items[i].uuid != items[j].uuid }

  /** All items have uuids, and both lists the same ones. */
  predicate SameUuids(ours: seq<Item>, theirs: seq<Item>) {
    None !in Uuids(ours) && None !in Uuids(theirs) && multiset(Uuids(ours)) == multiset(Uuids(theirs))
  }

  /** Every two items of ours keep, within the tolerance, the distance of the items of theirs with their uuids, where
      all four have a position. */
  predicate DistancesKept(ours: seq<Item>, theirs: seq<Item>, dist: Metric) {
    forall i, j, p, q ::
      && 0 <= i < j < |ours| && 0 <= p < |theirs| && 0 <= q < |theirs|
      && ours[i].uuid == theirs[p].uuid && ours[j].uuid == theirs[q].uuid ==>
        DistanceKept(ours[i].at, ours[j].at, theirs[p].at, theirs[q].at, dist)
  }

  predicate DistanceKept(a: Option<Point>, b: Option<Point>, c: Option<Point>, d: Option<Point>, dist: Metric) {
    a.Some? && b.Some? && c.Some? && d.Some? ==>
      -SAME_PLACE_MM <= dist(a.value, b.value) - dist(c.value, d.value) <= SAME_PLACE_MM
  }

  lemma PointsKeptMeans(a: Point, b: Point, c: Point, d: Point, dist: Metric)
    requires IsMetric(dist)
    ensures SameDistance(Apart(a, b), Apart(c, d)) <==> -SAME_PLACE_MM <= dist(a, b) - dist(c, d) <= SAME_PLACE_MM
  {
    LengthsMean(a, b, c, d, dist(a, b), dist(c, d));
  }

  lemma LengthsMean(a: Point, b: Point, c: Point, d: Point, s: real, t: real)
    requires IsLength(s, a.x - b.x, a.y - b.y) && IsLength(t, c.x - d.x, c.y - d.y)
    ensures SameDistance(Apart(a, b), Apart(c, d)) <==> -SAME_PLACE_MM <= s - t <= SAME_PLACE_MM
  {
    SameDistanceMeans(s, t);
    assert Apart(a, b) == s * s && Apart(c, d) == t * t;
  }

  lemma {:induction false} PlaceOfItem(items: seq<Item>, i: nat)
    requires i < |items| && DistinctUuids(items)
    ensures PlaceOfUuid(items, items[i].uuid) == items[i].at
  {
    if i < |items| - 1 {
      PlaceOfItem(items[..|items| - 1], i);
    }
  }

  lemma StillDistinctUuids(ours: seq<Item>, theirs: seq<Item>)
    requires DistinctUuids(ours) && SameUuids(ours, theirs)
    ensures DistinctUuids(theirs)
  {
    DistinctByMultiset(Uuids(ours), Uuids(theirs));
    forall i, j | 0 <= i < j < |theirs| ensures theirs[i].uuid != theirs[j].uuid {
      assert Uuids(theirs)[i] != Uuids(theirs)[j];
    }
  }

  lemma UuidAmong(ours: seq<Item>, theirs: seq<Item>, i: nat) returns (p: nat)
    requires i < |ours| && SameUuids(ours, theirs)
    ensures p < |theirs| && theirs[p].uuid == ours[i].uuid
  {
    assert Uuids(ours)[i] in multiset(Uuids(theirs));
    p :| 0 <= p < |theirs| && Uuids(theirs)[p] == Uuids(ours)[i];
  }

  lemma PairKeptMeans(ours: seq<Item>, theirs: seq<Item>, dist: Metric, i: nat, j: nat, p: nat, q: nat)
    requires IsMetric(dist) && DistinctUuids(ours) && DistinctUuids(theirs)
    requires i < |ours| && j < |ours| && p < |theirs| && q < |theirs|
    requires ours[i].uuid == theirs[p].uuid && ours[j].uuid == theirs[q].uuid
    ensures PairKept(ours, theirs, ours[i].uuid, ours[j].uuid) <==>
            DistanceKept(ours[i].at, ours[j].at, theirs[p].at, theirs[q].at, dist)
  {
    PlaceOfItem(ours, i);
    PlaceOfItem(ours, j);
    PlaceOfItem(theirs, p);
    PlaceOfItem(theirs, q);
    if ours[i].at.Some? && ours[j].at.Some? && theirs[p].at.Some? && theirs[q].at.Some? {
      PointsKeptMeans(ours[i].at.value, ours[j].at.value, theirs[p].at.value, theirs[q].at.value, dist);
    }
  }

  /** Items with distinct uuids have moved together if and only if theirs have the same uuids, and the distances are
      kept. */
  lemma MovedTogetherExactly(ours: seq<Item>, theirs: seq<Item>, dist: Metric)
    requires IsMetric(dist) && DistinctUuids(ours)
    ensures MovedTogether(ours, theirs) <==> SameUuids(ours, theirs) && DistancesKept(ours, theirs, dist)
  {
    if SameUuids(ours, theirs) {
      StillDistinctUuids(ours, theirs);
      if MovedTogether(ours, theirs) {
        forall i, j, p, q |
          && 0 <= i < j < |ours| && 0 <= p < |theirs| && 0 <= q < |theirs|
          && ours[i].uuid == theirs[p].uuid && ours[j].uuid == theirs[q].uuid
          ensures PairKept(ours, theirs, ours[i].uuid, ours[j].uuid)
          ensures DistanceKept(ours[i].at, ours[j].at, theirs[p].at, theirs[q].at, dist) {
          PairKeptMeans(ours, theirs, dist, i, j, p, q);
        }
      }
      if DistancesKept(ours, theirs, dist) {
        forall i, j | 0 <= i < j < |ours| ensures PairKept(ours, theirs, ours[i].uuid, ours[j].uuid) {
          var p := UuidAmong(ours, theirs, i);
          var q := UuidAmong(ours, theirs, j);
          PairKeptMeans(ours, theirs, dist, i, j, p, q);
        }
      }
    }
  }

  /** Several items with distinct uuids are at the place of others if and only if these are as many, and have the same
      uuids with the distances kept, or are paired by position; such a pairing is within the tolerance. */
  lemma SeveralAtOnePlace(ours: seq<Item>, theirs: seq<Item>, dist: Metric)
    requires IsMetric(dist) && |ours| > 1 && DistinctUuids(ours)
    ensures SameItems(ours, theirs) <==>
            && |ours| == |theirs|
            && ((SameUuids(ours, theirs) && DistancesKept(ours, theirs, dist))
                || AllNear(ours, theirs, NoneUsed(|theirs|)))
    ensures AllNear(ours, theirs, NoneUsed(|theirs|)) ==>
              exists matching: seq<nat> :: IsMatching(ours, theirs, NoneUsed(|theirs|), matching)
  {
    MovedTogetherExactly(ours, theirs, dist);
    if AllNear(ours, theirs, NoneUsed(|theirs|)) {
      var matching := NearGivesMatching(ours, theirs, NoneUsed(|theirs|));
    }
  }

  /** Whether an item has a position that says something: not a zone's origin. */
  predicate IsSomewhere(item: Item) {
    item.at.Some? && !(StartsWith(item.description, "Zone") && item.at.value.x == 0.0 && item.at.value.y == 0.0)
  }

  /** Both are somewhere, no further apart than the tolerance, or they are one item, not a zone, with one and the same
      text. */
  predicate OneTogether(ours: Item, theirs: Item, dist: Metric) {
    || (IsSomewhere(ours) && IsSomewhere(theirs) && dist(ours.at.value, theirs.at.value) <= SAME_PLACE_MM)
    || (ours.uuid.Some? && theirs.uuid == ours.uuid && !StartsWith(ours.description, "Zone")
        && ours.text == theirs.text != "")
  }

  lemma SingleAtOnePlace(ours: Item, theirs: Item, dist: Metric)
    requires IsMetric(dist)
    ensures SameItems([ours], [theirs]) <==> OneTogether(ours, theirs, dist)
  {
    if ours.at.Some? && theirs.at.Some? {
      NearMeans(ours.at.value, theirs.at.value, dist);
    }
  }

  /** The items of `f` that decide beside `g`: the copper of a clearance to the board edge, where both have some. */
  function ItemsBeside(f: Finding, g: Finding): seq<Item> {
    if f.kind == "copper_edge_clearance" && NoOutline(f.items) != [] && NoOutline(g.items) != [] then NoOutline(f.items)
    else f.items
  }

  lemma SamePlaceByItems(f: Finding, g: Finding)
    ensures SamePlace(f, g) <==>
            f.kind == g.kind && f.items != [] && SameItems(ItemsBeside(f, g), ItemsBeside(g, f))
  {
    NoOutlineShorter(f.items);
    NoOutlineShorter(g.items);
  }

  /** What it means that items are at the place of others: a single one, or several with distinct uuids. */
  ghost predicate ItemsTogether(ours: seq<Item>, theirs: seq<Item>, dist: Metric) {
    && |ours| == |theirs|
    && (|ours| == 1 ==> OneTogether(ours[0], theirs[0], dist))
    && (|ours| > 1 && DistinctUuids(ours) ==>
          || (SameUuids(ours, theirs) && DistancesKept(ours, theirs, dist))
          || exists matching: seq<nat> :: IsMatching(ours, theirs, NoneUsed(|theirs|), matching))
  }

  /** Two findings of one type whose items are together, by any distance of points. */
  ghost predicate Together(f: Finding, g: Finding) {
    && f.kind == g.kind
    && forall dist: Metric :: IsMetric(dist) ==> ItemsTogether(ItemsBeside(f, g), ItemsBeside(g, f), dist)
  }

  lemma SamePlaceMeans(f: Finding, g: Finding)
    requires SamePlace(f, g)
    ensures Together(f, g)
  {
    SamePlaceByItems(f, g);
    var ours, theirs := ItemsBeside(f, g), ItemsBeside(g, f);
    forall dist: Metric | IsMetric(dist) ensures ItemsTogether(ours, theirs, dist) {
      if |ours| == 1 {
        assert ours == [ours[0]] && theirs == [theirs[0]];
        SingleAtOnePlace(ours[0], theirs[0], dist);
      } else if DistinctUuids(ours) {
        SeveralAtOnePlace(ours, theirs, dist);
      }
    }
  }

  lemma {:induction false} NoOutlineOfConcat(a: seq<Item>, b: seq<Item>)
    ensures NoOutline(a + b) == NoOutline(a) + NoOutline(b)
  {
    if a == [] {
      assert a + b == b;
    } else {
      assert (a + b)[1..] == a[1..] + b;
      NoOutlineOfConcat(a[1..], b);
    }
  }

  lemma NoOutlineOfOne(item: Item)
    ensures NoOutline([item]) == if EndsWith(item.description, "on Edge.Cuts") then [] else [item]
  {
  }

  /** When a finding is at its own place: it has items, a single one must be located or name itself, several
      must all carry a uuid or all a position. */
  predicate KnowsItsPlace(items: seq<Item>) {
    && items != []
    && (|items| == 1 ==> Located(items[0]).Some? || (items[0].uuid.Some? && !ZoneItem(items[0]) && items[0].text != ""))
    && (|items| > 1 ==> None !in Uuids(items) || forall i :: 0 <= i < |items| ==> items[i].at.Some?)
  }

  lemma NearItself(p: Point)
    ensures Apart(p, p) == 0.0 && Near(p, p)
  {
  }

  lemma SameDistanceItself(s: real)
    requires s >= 0.0
    ensures SameDistance(s, s)
  {
    var t := SAME_PLACE_MM * SAME_PLACE_MM;
    var rest := s + s - t;
    if rest > 0.0 {
      assert 4.0 * s * s - rest * rest == t * (4.0 * s - t);
    }
  }

  /** The greedy match of positioned items against themselves never looks past its own index. */
  lemma {:induction false} NearThemselves(items: seq<Item>, from: nat, used: seq<bool>)
    requires from <= |items| == |used| && forall i :: 0 <= i < |items| ==> items[i].at.Some?
    requires forall k :: from <= k < |items| ==> !used[k]
    ensures AllNear(items[from..], items, used)
    decreases |items| - from
  {
    if from < |items| {
      NearItself(items[from].at.value);
      var i := FirstNear(items[from].at.value, items, used, 0);
      assert i.Some? && i.value <= from;
      assert items[from..][0] == items[from] && items[from..][1..] == items[from + 1..];
      NearThemselves(items, from + 1, used[i.value := true]);
    }
  }

  lemma PositionsNeeded(items: seq<Item>, theirs: seq<Item>, used: seq<bool>, k: nat)
    requires |used| == |theirs| && AllNear(items, theirs, used) && k < |items|
    ensures items[k].at.Some?
  {
    if k > 0 {
      var i := FirstNear(items[0].at.value, theirs, used, 0);
      PositionsNeeded(items[1..], theirs, used[i.value := true], k - 1);
    }
  }

  /** A finding's items are at their own place exactly when they say where they are. */
  lemma SameItemsAsItself(items: seq<Item>)
    ensures SameItems(items, items) <==> KnowsItsPlace(items)
  {
    if |items| == 1 {
      if Located(items[0]).Some? {
        NearItself(Located(items[0]).value);
      }
    } else if |items| > 1 {
      forall i, j | 0 <= i < j < |items| ensures PairKept(items, items, items[i].uuid, items[j].uuid) {
        var a, b := PlaceOfUuid(items, items[i].uuid), PlaceOfUuid(items, items[j].uuid);
        if a.Some? && b.Some? {
          SameDistanceItself(Apart(a.value, b.value));
        }
      }
      if forall i :: 0 <= i < |items| ==> items[i].at.Some? {
        NearThemselves(items, 0, NoneUsed(|items|));
        assert items[0..] == items;
      }
      if AllNear(items, items, NoneUsed(|items|)) {
        forall i | 0 <= i < |items| ensures items[i].at.Some? {
          PositionsNeeded(items, items, NoneUsed(|items|), i);
        }
      }
    }
  }

  function Deciding(f: Finding): seq<Item> {
    if EdgeReduced(f, f) then NoOutline(f.items) else f.items
  }

  /** A finding is at its own place exactly when its deciding items say where they are; a zone KiCad places at
      the origin, alone, does not. */
  lemma AtItsOwnPlace(f: Finding)
    ensures SamePlace(f, f) <==> f.items != [] && KnowsItsPlace(Deciding(f))
  {
    SameItemsAsItself(Deciding(f));
  }

  // --- Findings that are at no place --------------------------------------------------

  /** A clearance to the board edge between pieces of the outline only. */
  predicate OutlineAlone(f: Finding) { f.kind == "copper_edge_clearance" && f.items != [] && NoOutline(f.items) == [] }

  /** Items at some place say where they are. */
  lemma SomewhereKnows(ours: seq<Item>, theirs: seq<Item>)
    requires SameItems(ours, theirs)
    ensures KnowsItsPlace(ours)
  {
    if |ours| > 1 && !MovedTogether(ours, theirs) {
      forall i | 0 <= i < |ours| ensures ours[i].at.Some? {
        PositionsNeeded(ours, theirs, NoneUsed(|theirs|), i);
      }
    }
  }

  lemma {:induction false} NoOutlineShorter(items: seq<Item>)
    ensures |NoOutline(items)| <= |items| && (|NoOutline(items)| == |items| ==> NoOutline(items) == items)
  {
    if items != [] {
      NoOutlineShorter(items[1..]);
    }
  }

  /** A finding that does not say where it is is at no place, except of pieces of the outline only. */
  lemma PlacelessIsNowhere(f: Finding, g: Finding)
    requires !(f.items != [] && KnowsItsPlace(Deciding(f))) && (f.kind == g.kind ==> !OutlineAlone(g))
    ensures !SamePlace(f, g)
  {
    if SamePlace(f, g) {
      NoOutlineShorter(f.items);
      if EdgeReduced(f, g) {
        SomewhereKnows(NoOutline(f.items), NoOutline(g.items));
      } else {
        SomewhereKnows(f.items, g.items);
      }
    }
  }

  // --- Moving a finding ---------------------------------------------------------------

  function Moved(item: Item, dx: real, dy: real): Item {
    item.(at := if item.at.None? then None else Some(Point(item.at.value.x + dx, item.at.value.y + dy)))
  }

  function AllMoved(items: seq<Item>, dx: real, dy: real): (moved: seq<Item>)
    ensures |moved| == |items| && forall i :: 0 <= i < |items| ==> moved[i] == Moved(items[i], dx, dy)
  {
    seq(|items|, i requires 0 <= i < |items| => Moved(items[i], dx, dy))
  }

  lemma {:induction false} PlaceOfMoved(items: seq<Item>, dx: real, dy: real, uuid: Option<string>)
    ensures var at := PlaceOfUuid(items, uuid);
            PlaceOfUuid(AllMoved(items, dx, dy), uuid)
            == if at.None? then None else Some(Point(at.value.x + dx, at.value.y + dy))
  {
    if items != [] {
      var n := |items|;
      assert AllMoved(items, dx, dy)[..n - 1] == AllMoved(items[..n - 1], dx, dy);
      PlaceOfMoved(items[..n - 1], dx, dy, uuid);
    }
  }

  lemma {:induction false} NoOutlineMoved(items: seq<Item>, dx: real, dy: real)
    ensures NoOutline(AllMoved(items, dx, dy)) == AllMoved(NoOutline(items), dx, dy)
    ensures |NoOutline(items)| <= |items|
  {
    if items != [] {
      assert AllMoved(items, dx, dy)[1..] == AllMoved(items[1..], dx, dy);
      NoOutlineMoved(items[1..], dx, dy);
    }
  }

  function MovedFinding(f: Finding, dx: real, dy: real): Finding { f.(items := AllMoved(f.items, dx, dy)) }

  /** A finding stays at its place when its items move together, if several items decide the place and all have a
      uuid. */
  lemma MovedStaysInPlace(f: Finding, dx: real, dy: real)
    requires |Deciding(f)| > 1 && None !in Uuids(Deciding(f))
    ensures SamePlace(MovedFinding(f, dx, dy), f)
  {
    NoOutlineMoved(f.items, dx, dy);
    ItemsMovedStay(Deciding(f), dx, dy);
  }

  lemma NearMoved(p: Point, dx: real, dy: real)
    ensures Near(Point(p.x + dx, p.y + dy), p) <==> dx * dx + dy * dy <= SAME_PLACE_MM * SAME_PLACE_MM
  {
    var q := Point(p.x + dx, p.y + dy);
    var u, v := q.x - p.x, q.y - p.y;
    assert Apart(q, p) == u * u + v * v;
    SameSquare(u, dx);
    SameSquare(v, dy);
  }

  lemma SameSquare(u: real, v: real)
    requires u == v
    ensures u * u == v * v
  {
  }

  /** Where one item decides, the finding stays exactly when the item is one that names itself, or moved at most the
      tolerance between places that are not a zone's origin. */
  lemma MovedAloneStays(f: Finding, dx: real, dy: real)
    requires |Deciding(f)| == 1
    ensures var item := Deciding(f)[0];
            SamePlace(MovedFinding(f, dx, dy), f) <==>
            || (item.uuid.Some? && !ZoneItem(item) && item.text != "")
            || (Located(item).Some? && Located(Moved(item, dx, dy)).Some?
                && dx * dx + dy * dy <= SAME_PLACE_MM * SAME_PLACE_MM)
  {
    NoOutlineMoved(f.items, dx, dy);
    var item := Deciding(f)[0];
    assert Deciding(f) == [item] && AllMoved([item], dx, dy) == [Moved(item, dx, dy)];
    if item.at.Some? {
      NearMoved(item.at.value, dx, dy);
    }
  }

  /** Several items, all with a uuid, stay at the same place when they move together. */
  lemma ItemsMovedStay(items: seq<Item>, dx: real, dy: real)
    requires |items| > 1 && None !in Uuids(items)
    ensures SameItems(AllMoved(items, dx, dy), items)
  {
    var moved := AllMoved(items, dx, dy);
    assert Uuids(moved) == Uuids(items);
    forall i, j | 0 <= i < j < |moved| ensures PairKept(moved, items, moved[i].uuid, moved[j].uuid) {
      var first, second := items[i].uuid, items[j].uuid;
      PlaceOfMoved(items, dx, dy, first);
      PlaceOfMoved(items, dx, dy, second);
      var a, b := PlaceOfUuid(items, first), PlaceOfUuid(items, second);
      if a.Some? && b.Some? {
        var p, q := PlaceOfUuid(moved, first).value, PlaceOfUuid(moved, second).value;
        assert p.x - q.x == a.value.x - b.value.x && p.y - q.y == a.value.y - b.value.y;
        assert Apart(p, q) == Apart(a.value, b.value);
        SameDistanceItself(Apart(a.value, b.value));
      }
    }
  }
}
