/** Grouping silkscreen graphics whose boxes lie close together: union-find over a grid of cells. */
module Clusters {
  import opened UnionFind

  const CLUSTER_GAP := 0.5
  const CELL := 5.0

  datatype Box = Box(x0: real, y0: real, x1: real, y1: real)

  datatype Graphic = Graphic(layer: string, boxes: seq<Box>)

  /** A cell of the grid on one layer. */
  datatype Cell = Cell(layer: string, gx: int, gy: int)

  datatype Entry = Entry(index: nat, box: Box)

  function Grown(box: Box, margin: real): Box {
    Box(box.x0 - margin, box.y0 - margin, box.x1 + margin, box.y1 + margin)
  }

  predicate Within(a: Box, b: Box, gap: real) {
    a.x0 < b.x1 + gap && b.x0 < a.x1 + gap && a.y0 < b.y1 + gap && b.y0 < a.y1 + gap
  }

  function CellOf(v: real): int { (v / CELL).Floor }

  /** The cells the box's entry goes into. */
  predicate Covers(box: Box, gx: int, gy: int) {
    var g := Grown(box, CLUSTER_GAP / 2.0);
    CellOf(g.x0) <= gx <= CellOf(g.x1) && CellOf(g.y0) <= gy <= CellOf(g.y1)
  }

  /** Some cell is one of the box's: grown by half the gap, it is not inside out from one cell to another. */
  predicate HasCell(box: Box) {
    var g := Grown(box, CLUSTER_GAP / 2.0);
    CellOf(g.x0) <= CellOf(g.x1) && CellOf(g.y0) <= CellOf(g.y1)
  }

  predicate AllHaveCells(graphics: seq<Graphic>) {
    forall i, k :: 0 <= i < |graphics| && 0 <= k < |graphics[i].boxes| ==> HasCell(graphics[i].boxes[k])
  }

  lemma FloorIsMonotone(a: real, b: real)
    requires a <= b
    ensures CellOf(a) <= CellOf(b)
  {
    assert a / CELL <= b / CELL;
  }

  /** Where two ranges lie within the gap, their cells overlap if neither is empty. */
  lemma RangesOverlap(a0: real, a1: real, b0: real, b1: real) returns (g: int)
    requires a0 <= b1 && b0 <= a1 && CellOf(a0) <= CellOf(a1) && CellOf(b0) <= CellOf(b1)
    ensures CellOf(a0) <= g <= CellOf(a1) && CellOf(b0) <= g <= CellOf(b1)
  {
    FloorIsMonotone(a0, b1);
    FloorIsMonotone(b0, a1);
    g := if CellOf(a0) >= CellOf(b0) then CellOf(a0) else CellOf(b0);
  }

  ghost predicate ShareCell(a: Box, b: Box) { exists gx, gy :: Covers(a, gx, gy) && Covers(b, gx, gy) }

  /** The index brings two boxes within the gap together if and only if each has a cell. */
  lemma CloseBoxesShareCell(a: Box, b: Box)
    requires Within(a, b, CLUSTER_GAP)
    ensures ShareCell(a, b) <==> HasCell(a) && HasCell(b)
  {
    if HasCell(a) && HasCell(b) {
      var ga, gb := Grown(a, CLUSTER_GAP / 2.0), Grown(b, CLUSTER_GAP / 2.0);
      var gx := RangesOverlap(ga.x0, ga.x1, gb.x0, gb.x1);
      var gy := RangesOverlap(ga.y0, ga.y1, gb.y0, gb.y1);
      assert Covers(a, gx, gy) && Covers(b, gx, gy);
    }
  }

  // --- Chains of close boxes ---------------------------------------------------------

  /** Boxes within the gap of each other that both have a cell. */
  predicate Meet(a: Box, b: Box) { Within(a, b, CLUSTER_GAP) && HasCell(a) && HasCell(b) }

  predicate Adjacent(graphics: seq<Graphic>, i: nat, j: nat)
    requires i < |graphics| && j < |graphics|
  {
    && graphics[i].layer == graphics[j].layer
    && exists a, b :: a in graphics[i].boxes && b in graphics[j].boxes && Meet(a, b)
  }

  ghost predicate IsChain(graphics: seq<Graphic>, chain: seq<nat>) {
    && (forall k :: 0 <= k < |chain| ==> chain[k] < |graphics|)
    && (forall k :: 0 <= k < |chain| - 1 ==> Adjacent(graphics, chain[k], chain[k + 1]))
  }

  /** A chain of graphics, each with a box that meets one of the next one's on one layer, joins `i` to `j`. */
  ghost predicate Connected(graphics: seq<Graphic>, i: nat, j: nat) {
    exists chain: seq<nat> :: IsChain(graphics, chain) && |chain| > 0 && chain[0] == i && chain[|chain| - 1] == j
  }

  lemma ConnectedToItself(graphics: seq<Graphic>, i: nat)
    requires i < |graphics|
    ensures Connected(graphics, i, i)
  {
    assert IsChain(graphics, [i]);
  }

  lemma AdjacentBothWays(graphics: seq<Graphic>, i: nat, j: nat)
    requires i < |graphics| && j < |graphics| && Adjacent(graphics, i, j)
    ensures Adjacent(graphics, j, i)
  {
    var a, b :| a in graphics[i].boxes && b in graphics[j].boxes && Meet(a, b);
    assert Meet(b, a);
  }

  lemma AdjacentIsConnected(graphics: seq<Graphic>, i: nat, j: nat)
    requires i < |graphics| && j < |graphics| && Adjacent(graphics, i, j)
    ensures Connected(graphics, i, j)
  {
    assert IsChain(graphics, [i, j]);
  }

  lemma ConnectedBothWays(graphics: seq<Graphic>, i: nat, j: nat)
    requires Connected(graphics, i, j)
    ensures Connected(graphics, j, i)
  {
    var chain: seq<nat> :| IsChain(graphics, chain) && |chain| > 0 && chain[0] == i && chain[|chain| - 1] == j;
    var n := |chain|;
    var back := seq(n, k requires 0 <= k < n => chain[n - 1 - k]);
    forall k | 0 <= k < n - 1 ensures Adjacent(graphics, back[k], back[k + 1]) {
      assert Adjacent(graphics, chain[n - 2 - k], chain[n - 2 - k + 1]);
      AdjacentBothWays(graphics, chain[n - 2 - k], chain[n - 1 - k]);
    }
    assert IsChain(graphics, back);
  }

  lemma ConnectedThrough(graphics: seq<Graphic>, i: nat, j: nat, k: nat)
    requires Connected(graphics, i, j) && Connected(graphics, j, k)
    ensures Connected(graphics, i, k)
  {
    var a: seq<nat> :| IsChain(graphics, a) && |a| > 0 && a[0] == i && a[|a| - 1] == j;
    var b: seq<nat> :| IsChain(graphics, b) && |b| > 0 && b[0] == j && b[|b| - 1] == k;
    var c := a + b[1..];
    forall m | 0 <= m < |c| - 1 ensures Adjacent(graphics, c[m], c[m + 1]) {
      if m < |a| - 1 {
        assert Adjacent(graphics, a[m], a[m + 1]);
      } else {
        assert Adjacent(graphics, b[m - |a| + 1], b[m - |a| + 1 + 1]);
      }
    }
    assert IsChain(graphics, c);
  }

  // --- Chains by the gap alone --------------------------------------------------------

  predicate Close(graphics: seq<Graphic>, i: nat, j: nat)
    requires i < |graphics| && j < |graphics|
  {
    && graphics[i].layer == graphics[j].layer
    && exists a, b :: a in graphics[i].boxes && b in graphics[j].boxes && Within(a, b, CLUSTER_GAP)
  }

  ghost predicate IsCloseChain(graphics: seq<Graphic>, chain: seq<nat>) {
    && (forall k :: 0 <= k < |chain| ==> chain[k] < |graphics|)
    && (forall k :: 0 <= k < |chain| - 1 ==> Close(graphics, chain[k], chain[k + 1]))
  }

  /** A chain of graphics, each with a box within the gap of the next one's on one layer, joins `i` to `j`. */
  ghost predicate ChainJoins(graphics: seq<Graphic>, i: nat, j: nat) {
    exists chain: seq<nat> :: IsCloseChain(graphics, chain) && |chain| > 0 && chain[0] == i && chain[|chain| - 1] == j
  }

  lemma MeetWhenClose(graphics: seq<Graphic>, i: nat, j: nat)
    requires i < |graphics| && j < |graphics|
    ensures Adjacent(graphics, i, j) ==> Close(graphics, i, j)
    ensures AllHaveCells(graphics) && Close(graphics, i, j) ==> Adjacent(graphics, i, j)
  {
    if AllHaveCells(graphics) && Close(graphics, i, j) {
      var a, b :| a in graphics[i].boxes && b in graphics[j].boxes && Within(a, b, CLUSTER_GAP);
      assert Meet(a, b);
    }
  }

  /** Chains through cells are chains by the gap; the index loses none when every two close graphics are connected. */
  lemma ChainsThroughCells(graphics: seq<Graphic>, i: nat, j: nat)
    ensures Connected(graphics, i, j) ==> ChainJoins(graphics, i, j)
    ensures CloseAreConnected(graphics) && ChainJoins(graphics, i, j) ==> Connected(graphics, i, j)
  {
    if Connected(graphics, i, j) {
      var chain: seq<nat> :| IsChain(graphics, chain) && |chain| > 0 && chain[0] == i && chain[|chain| - 1] == j;
      forall k | 0 <= k < |chain| - 1 ensures Close(graphics, chain[k], chain[k + 1]) {
        MeetWhenClose(graphics, chain[k], chain[k + 1]);
      }
      assert IsCloseChain(graphics, chain);
    }
    if CloseAreConnected(graphics) && ChainJoins(graphics, i, j) {
      var chain: seq<nat> :| IsCloseChain(graphics, chain) && |chain| > 0 && chain[0] == i && chain[|chain| - 1] == j;
      CloseChainConnects(graphics, chain);
    }
  }

  ghost predicate CloseAreConnected(graphics: seq<Graphic>) {
    forall i: nat, j: nat :: i < |graphics| && j < |graphics| && Close(graphics, i, j) ==> Connected(graphics, i, j)
  }

  lemma {:induction false} CloseChainConnects(graphics: seq<Graphic>, chain: seq<nat>)
    requires CloseAreConnected(graphics) && IsCloseChain(graphics, chain) && |chain| > 0
    ensures Connected(graphics, chain[0], chain[|chain| - 1])
  {
    if |chain| == 1 {
      ConnectedToItself(graphics, chain[0]);
    } else {
      var rest := chain[1..];
      forall k | 0 <= k < |rest| - 1 ensures Close(graphics, rest[k], rest[k + 1]) {
        assert Close(graphics, chain[k + 1], chain[k + 1 + 1]);
      }
      CloseChainConnects(graphics, rest);
      assert Close(graphics, chain[0], chain[0 + 1]);
      ConnectedThrough(graphics, chain[0], chain[1], chain[|chain| - 1]);
    }
  }

  /** The index loses no chain exactly when every two close graphics are connected through cells; it does not when
      every box has a cell. */
  lemma LosesNothingExactly(graphics: seq<Graphic>)
    ensures (forall i: nat, j: nat :: i < |graphics| && j < |graphics| ==>
               (Connected(graphics, i, j) <==> ChainJoins(graphics, i, j))) <==> CloseAreConnected(graphics)
    ensures AllHaveCells(graphics) ==> CloseAreConnected(graphics)
  {
    forall i: nat, j: nat | i < |graphics| && j < |graphics| && Close(graphics, i, j)
      ensures ChainJoins(graphics, i, j) {
      assert IsCloseChain(graphics, [i, j]);
    }
    forall i: nat, j: nat | i < |graphics| && j < |graphics|
      ensures Connected(graphics, i, j) ==> ChainJoins(graphics, i, j)
      ensures CloseAreConnected(graphics) && ChainJoins(graphics, i, j) ==> Connected(graphics, i, j) {
      ChainsThroughCells(graphics, i, j);
    }
    if AllHaveCells(graphics) {
      forall i: nat, j: nat | i < |graphics| && j < |graphics| && Close(graphics, i, j)
        ensures Connected(graphics, i, j) {
        MeetWhenClose(graphics, i, j);
        AdjacentIsConnected(graphics, i, j);
      }
    }
  }

  predicate HasNoCell(graphic: Graphic) { forall k :: 0 <= k < |graphic.boxes| ==> !HasCell(graphic.boxes[k]) }

  /** A graphic none of whose boxes has a cell is in a group by itself, whatever lies close to it. */
  lemma NoCellIsAlone(graphics: seq<Graphic>, i: nat, j: nat)
    requires i < |graphics| && HasNoCell(graphics[i]) && Connected(graphics, i, j)
    ensures i == j
  {
    var chain: seq<nat> :| IsChain(graphics, chain) && |chain| > 0 && chain[0] == i && chain[|chain| - 1] == j;
    if |chain| > 1 {
      SecondIsAdjacent(graphics, chain);
    }
  }

  lemma SecondIsAdjacent(graphics: seq<Graphic>, chain: seq<nat>)
    requires IsChain(graphics, chain) && |chain| > 1
    ensures chain[0] < |graphics| && chain[1] < |graphics| && Adjacent(graphics, chain[0], chain[1])
  {
    assert Adjacent(graphics, chain[0], chain[0 + 1]);
  }

  /** Such a box is inside out by more than the gap; but not each box that is has no cell. */
  lemma InsideOutBoxes(box: Box)
    ensures !HasCell(box) ==> box.x0 - box.x1 > CLUSTER_GAP || box.y0 - box.y1 > CLUSTER_GAP
    ensures HasCell(Box(1.0, 0.0, 0.0, 1.0)) && !HasCell(Box(10.0, 0.0, 0.0, 1.0))
  {
    if box.x0 - box.x1 <= CLUSTER_GAP && box.y0 - box.y1 <= CLUSTER_GAP {
      FloorIsMonotone(box.x0 - CLUSTER_GAP / 2.0, box.x1 + CLUSTER_GAP / 2.0);
      FloorIsMonotone(box.y0 - CLUSTER_GAP / 2.0, box.y1 + CLUSTER_GAP / 2.0);
    }
    assert CellOf(0.75) == 0 by { assert 0.75 / CELL == 0.15; }
    assert CellOf(0.25) == 0 by { assert 0.25 / CELL == 0.05; }
    assert CellOf(-0.25) == -1 by { assert -0.25 / CELL == -0.05; }
    assert CellOf(1.25) == 0 by { assert 1.25 / CELL == 0.25; }
    assert CellOf(9.75) == 1 by { assert 9.75 / CELL == 1.95; }
  }

  /** Two close graphics, one of which a negative stroke width has turned inside out, that the index does not join. */
  lemma ClosePairIsLost()
    ensures var graphics := [Graphic("F.SilkS", [Box(10.0, 0.0, 0.0, 1.0)]),
                             Graphic("F.SilkS", [Box(0.0, 0.0, 10.0, 1.0)])];
            Close(graphics, 0, 1) && !Connected(graphics, 0, 1)
  {
    var graphics := [Graphic("F.SilkS", [Box(10.0, 0.0, 0.0, 1.0)]), Graphic("F.SilkS", [Box(0.0, 0.0, 10.0, 1.0)])];
    InsideOutBoxes(graphics[0].boxes[0]);
    assert graphics[0].boxes[0] in graphics[0].boxes && graphics[1].boxes[0] in graphics[1].boxes;
    assert Within(graphics[0].boxes[0], graphics[1].boxes[0], CLUSTER_GAP);
    if Connected(graphics, 0, 1) {
      NoCellIsAlone(graphics, 0, 1);
    }
  }

  // --- The state between two boxes ----------------------------------------------------

  type Buckets = map<Cell, seq<Entry>>

  function BucketAt(buckets: Buckets, cell: Cell): seq<Entry> {
    if cell in buckets then buckets[cell] else []
  }

  /** Every node is connected to its root. */
  ghost predicate RootsConnected(graphics: seq<Graphic>, p: seq<nat>)
    requires Forest(p)
  {
    |p| == |graphics| && forall k :: 0 <= k < |p| ==> Connected(graphics, k, Root(p, k))
  }

  /** An entry is a box of a graphic read so far that covers the cell. */
  ghost predicate IsEntry(graphics: seq<Graphic>, last: nat, cell: Cell, e: Entry) {
    && e.index <= last && e.index < |graphics| && graphics[e.index].layer == cell.layer
       && e.box in graphics[e.index].boxes
    && Covers(e.box, cell.gx, cell.gy)
  }

  ghost predicate BucketsRead(graphics: seq<Graphic>, last: nat, buckets: Buckets) {
    forall cell, k :: 0 <= k < |BucketAt(buckets, cell)| ==> IsEntry(graphics, last, cell, BucketAt(buckets, cell)[k])
  }

  /** Close entries of one cell have been joined. */
  ghost predicate Linked(p: seq<nat>, bucket: seq<Entry>)
    requires Forest(p)
  {
    forall a, b ::
      && 0 <= a < |bucket| && 0 <= b < |bucket| && bucket[a].index < |p| && bucket[b].index < |p|
      && Within(bucket[a].box, bucket[b].box, CLUSTER_GAP) ==>
        Root(p, bucket[a].index) == Root(p, bucket[b].index)
  }

  ghost predicate AllLinked(p: seq<nat>, buckets: Buckets)
    requires Forest(p)
  {
    forall cell :: Linked(p, BucketAt(buckets, cell))
  }

  ghost predicate State(graphics: seq<Graphic>, p: seq<nat>, last: nat, buckets: Buckets) {
    && JoinedUpTo(p, last) && RootsConnected(graphics, p)
    && BucketsRead(graphics, last, buckets) && AllLinked(p, buckets)
  }

  /** Nodes with one root before have one root after. */
  ghost predicate Coarser(p: seq<nat>, p': seq<nat>)
    requires Forest(p) && Forest(p')
  {
    |p| == |p'| && forall i, j :: 0 <= i < |p| && 0 <= j < |p| && Root(p, i) == Root(p, j) ==>
        Root(p', i) == Root(p', j)
  }

  lemma LinkedStays(p: seq<nat>, p': seq<nat>, bucket: seq<Entry>)
    requires Forest(p) && Forest(p') && Coarser(p, p') && Linked(p, bucket)
    ensures Linked(p', bucket)
  {
  }

  lemma StateStays(graphics: seq<Graphic>, p: seq<nat>, p': seq<nat>, last: nat, buckets: Buckets)
    requires State(graphics, p, last, buckets) && JoinedUpTo(p', last) && Coarser(p, p') && RootsConnected(graphics, p')
    ensures State(graphics, p', last, buckets)
  {
    forall cell ensures Linked(p', BucketAt(buckets, cell)) {
      LinkedStays(p, p', BucketAt(buckets, cell));
    }
  }

  lemma SameRootsCoarser(graphics: seq<Graphic>, p: seq<nat>, p': seq<nat>)
    requires Forest(p) && Forest(p') && SameRoots(p, p') && RootsConnected(graphics, p)
    ensures Coarser(p, p') && RootsConnected(graphics, p')
  {
  }

  /** Joining the root of an adjacent graphic to the graphic read last keeps every node connected to its root. */
  lemma JoiningKeepsConnected(graphics: seq<Graphic>, p: seq<nat>, other: nat, index: nat)
    requires JoinedUpTo(p, index) && RootsConnected(graphics, p) && other <= index < |p|
    requires Adjacent(graphics, other, index) && Root(p, other) != Root(p, index)
    ensures Root(p, index) == index && Root(p, other) < index
    ensures var p' := p[Root(p, other) := index];
            && JoinedUpTo(p', index) && RootsConnected(graphics, p') && Coarser(p, p')
            && Root(p', other) == Root(p', index) == index
  {
    var from := Root(p, other);
    RootUpTo(p, index, index);
    RootUpTo(p, index, other);
    var p' := p[from := index];
    forall k | 0 <= k < |p| ensures Forest(p') && Root(p', k) == if Root(p, k) == from then index else Root(p, k) {
      JoiningMovesRoot(p, from, index, k);
    }
    AdjacentIsConnected(graphics, other, index);
    ConnectedBothWays(graphics, other, from);
    ConnectedThrough(graphics, from, other, index);
    forall k | 0 <= k < |p| ensures Connected(graphics, k, Root(p', k)) {
      if Root(p, k) == from {
        ConnectedThrough(graphics, k, from, index);
      }
    }
  }

  /** The box's entry is in every cell it covers. */
  ghost predicate Filed(graphics: seq<Graphic>, buckets: Buckets, index: nat, box: Box)
    requires index < |graphics|
  {
    forall gx, gy :: Covers(box, gx, gy) ==> Entry(index, box) in BucketAt(buckets, Cell(graphics[index].layer, gx, gy))
  }

  /** The buckets only grow. */
  ghost predicate Grew(buckets: Buckets, buckets': Buckets) {
    forall cell, e :: e in BucketAt(buckets, cell) ==> e in BucketAt(buckets', cell)
  }

  // --- The loops ----------------------------------------------------------------------

  /** `find` keeps the state: only roots count in it. */
  method FindRoot(graphics: seq<Graphic>, parent: array<nat>, start: nat, index: nat, ghost buckets: Buckets)
    returns (root: nat)
    requires start <= index < |graphics| == parent.Length
    requires State(graphics, parent[..], index, buckets)
    modifies parent
    ensures State(graphics, parent[..], index, buckets) && SameRoots(old(parent[..]), parent[..])
    ensures root == Root(parent[..], start)
  {
    ghost var p := parent[..];
    root := Find(parent, start, index);
    SameRootsCoarser(graphics, p, parent[..]);
    StateStays(graphics, p, parent[..], index, buckets);
  }

  method FindBoth(graphics: seq<Graphic>, parent: array<nat>, first: nat, second: nat, index: nat,
                  ghost buckets: Buckets)
    returns (a: nat, b: nat)
    requires first <= index < |graphics| == parent.Length && second <= index
    requires State(graphics, parent[..], index, buckets)
    modifies parent
    ensures State(graphics, parent[..], index, buckets) && SameRoots(old(parent[..]), parent[..])
    ensures a == Root(parent[..], first) && b == Root(parent[..], second)
  {
    a := FindRoot(graphics, parent, first, index, buckets);
    b := FindRoot(graphics, parent, second, index, buckets);
  }

  /** Joins `other` to `index` where they are apart and their boxes close. */
  method LinkPair(graphics: seq<Graphic>, parent: array<nat>, ghost buckets: Buckets, other: nat, otherBox: Box,
                  index: nat, box: Box)
    requires other <= index < |graphics| == parent.Length && graphics[other].layer == graphics[index].layer
    requires box in graphics[index].boxes && otherBox in graphics[other].boxes && ShareCell(otherBox, box)
    requires State(graphics, parent[..], index, buckets)
    modifies parent
    ensures State(graphics, parent[..], index, buckets) && Coarser(old(parent[..]), parent[..])
    ensures Within(box, otherBox, CLUSTER_GAP) ==> Root(parent[..], other) == Root(parent[..], index)
  {
    var ro, ri := FindBoth(graphics, parent, other, index, index, buckets);
    if ro != ri && Within(box, otherBox, CLUSTER_GAP) {
      ri, ro := FindBoth(graphics, parent, index, other, index, buckets);
      CloseBoxesShareCell(otherBox, box);
      Attach(graphics, parent, buckets, other, index, ro, ri);
    }
  }

  /** Hangs one root under the other. */
  method Attach(graphics: seq<Graphic>, parent: array<nat>, ghost buckets: Buckets, ghost other: nat, ghost index: nat,
                from: nat, to: nat)
    requires other <= index < |graphics| == parent.Length && State(graphics, parent[..], index, buckets)
    requires from == Root(parent[..], other) && to == Root(parent[..], index) && from != to
             && Adjacent(graphics, other, index)
    modifies parent
    ensures State(graphics, parent[..], index, buckets) && Coarser(old(parent[..]), parent[..])
    ensures Root(parent[..], other) == Root(parent[..], index)
  {
    ghost var p := parent[..];
    JoiningKeepsConnected(graphics, p, other, index);
    parent[from] := to;
    assert parent[..] == p[from := index];
    StateStays(graphics, p, parent[..], index, buckets);
  }

  /** Joins `index` with the graphics that have a close box in the cell, then files the box there. */
  method LinkInCell(graphics: seq<Graphic>, parent: array<nat>, buckets: Buckets, index: nat, box: Box, cell: Cell)
    returns (buckets': Buckets)
    requires index < |graphics| == parent.Length && box in graphics[index].boxes && cell.layer == graphics[index].layer
             && Covers(box, cell.gx, cell.gy)
    requires State(graphics, parent[..], index, buckets)
    modifies parent
    ensures State(graphics, parent[..], index, buckets')
    ensures Grew(buckets, buckets') && Entry(index, box) in BucketAt(buckets', cell)
  {
    var bucket := BucketAt(buckets, cell);
    for k := 0 to |bucket|
      invariant State(graphics, parent[..], index, buckets)
      invariant LinkedTo(parent[..], bucket, k, index, box)
    {
      assert IsEntry(graphics, index, cell, bucket[k]);
      assert ShareCell(bucket[k].box, box);
      ghost var p := parent[..];
      LinkPair(graphics, parent, buckets, bucket[k].index, bucket[k].box, index, box);
      LinkedToStays(p, parent[..], bucket, k, index, box);
    }
    buckets' := buckets[cell := bucket + [Entry(index, box)]];
    FilingKeepsState(graphics, parent[..], buckets, index, box, cell);
  }

  /** Of the bucket's first `n` entries those close to `box` have the root of `index`. */
  ghost predicate LinkedTo(p: seq<nat>, bucket: seq<Entry>, n: nat, index: nat, box: Box)
    requires Forest(p) && index < |p|
  {
    forall k :: 0 <= k < n && k < |bucket| && bucket[k].index < |p| && Within(box, bucket[k].box, CLUSTER_GAP) ==>
      Root(p, bucket[k].index) == Root(p, index)
  }

  lemma LinkedToStays(p: seq<nat>, p': seq<nat>, bucket: seq<Entry>, n: nat, index: nat, box: Box)
    requires Forest(p) && Forest(p') && Coarser(p, p') && index < |p| && LinkedTo(p, bucket, n, index, box)
    ensures LinkedTo(p', bucket, n, index, box)
  {
  }

  lemma FilingKeepsState(graphics: seq<Graphic>, p: seq<nat>, buckets: Buckets, index: nat, box: Box, cell: Cell)
    requires index < |graphics| && box in graphics[index].boxes && cell.layer == graphics[index].layer
             && Covers(box, cell.gx, cell.gy)
    requires State(graphics, p, index, buckets)
             && LinkedTo(p, BucketAt(buckets, cell), |BucketAt(buckets, cell)|, index, box)
    ensures var buckets' := buckets[cell := BucketAt(buckets, cell) + [Entry(index, box)]];
            && State(graphics, p, index, buckets') && Grew(buckets, buckets')
            && Entry(index, box) in BucketAt(buckets', cell)
  {
    var bucket := BucketAt(buckets, cell);
    var buckets' := buckets[cell := bucket + [Entry(index, box)]];
    assert (bucket + [Entry(index, box)])[|bucket|] == Entry(index, box);
    forall c ensures Linked(p, BucketAt(buckets', c)) {
      assert Linked(p, BucketAt(buckets, c));
      LinkedOneMore(p, bucket, index, box);
    }
    FilingIsRead(graphics, buckets, index, box, cell);
  }

  lemma LinkedOneMore(p: seq<nat>, bucket: seq<Entry>, index: nat, box: Box)
    requires Forest(p) && index < |p| && LinkedTo(p, bucket, |bucket|, index, box) && Linked(p, bucket)
    ensures Linked(p, bucket + [Entry(index, box)])
  {
  }

  lemma FilingIsRead(graphics: seq<Graphic>, buckets: Buckets, index: nat, box: Box, cell: Cell)
    requires index < |graphics| && box in graphics[index].boxes && cell.layer == graphics[index].layer
             && Covers(box, cell.gx, cell.gy)
    requires BucketsRead(graphics, index, buckets)
    ensures BucketsRead(graphics, index, buckets[cell := BucketAt(buckets, cell) + [Entry(index, box)]])
  {
    var buckets' := buckets[cell := BucketAt(buckets, cell) + [Entry(index, box)]];
    forall c, k | 0 <= k < |BucketAt(buckets', c)| ensures IsEntry(graphics, index, c, BucketAt(buckets', c)[k]) {
      if k < |BucketAt(buckets, c)| {
        assert IsEntry(graphics, index, c, BucketAt(buckets, c)[k]);
      }
    }
  }

  /** The box's entry is in the cells of columns before `gx`, and of column `gx` in the rows before `gy`. */
  ghost predicate FiledBefore(layer: string, buckets: Buckets, e: Entry, gx: int, gy: int) {
    forall x, y :: Covers(e.box, x, y) && (x < gx || (x == gx && y < gy)) ==> e in BucketAt(buckets, Cell(layer, x, y))
  }

  lemma FiledOneMore(layer: string, buckets: Buckets, buckets': Buckets, e: Entry, gx: int, gy: int)
    requires FiledBefore(layer, buckets, e, gx, gy) && Grew(buckets, buckets')
    requires e in BucketAt(buckets', Cell(layer, gx, gy))
    ensures FiledBefore(layer, buckets', e, gx, gy + 1)
  {
  }

  lemma FiledColumn(layer: string, buckets: Buckets, e: Entry, gx: int, gy: int)
    requires FiledBefore(layer, buckets, e, gx, gy) && gy > CellOf(Grown(e.box, CLUSTER_GAP / 2.0).y1)
    ensures FiledBefore(layer, buckets, e, gx + 1, CellOf(Grown(e.box, CLUSTER_GAP / 2.0).y0))
  {
  }

  lemma GrewFurther(a: Buckets, b: Buckets, c: Buckets)
    requires Grew(a, b) && Grew(b, c)
    ensures Grew(a, c)
  {
  }

  /** Files one box in every cell it covers. */
  method FileBox(graphics: seq<Graphic>, parent: array<nat>, buckets: Buckets, index: nat, box: Box)
    returns (buckets': Buckets)
    requires index < |graphics| == parent.Length && box in graphics[index].boxes
    requires State(graphics, parent[..], index, buckets)
    modifies parent
    ensures State(graphics, parent[..], index, buckets')
    ensures Grew(buckets, buckets') && Filed(graphics, buckets', index, box)
  {
    buckets' := buckets;
    var g := Grown(box, CLUSTER_GAP / 2.0);
    var layer := graphics[index].layer;
    var gx := CellOf(g.x0);
    while gx <= CellOf(g.x1)
      invariant State(graphics, parent[..], index, buckets') && Grew(buckets, buckets')
      invariant FiledBefore(layer, buckets', Entry(index, box), gx, CellOf(g.y0))
    {
      var gy := CellOf(g.y0);
      while gy <= CellOf(g.y1)
        invariant State(graphics, parent[..], index, buckets') && Grew(buckets, buckets')
        invariant FiledBefore(layer, buckets', Entry(index, box), gx, gy)
      {
        ghost var before := buckets';
        buckets' := LinkInCell(graphics, parent, buckets', index, box, Cell(layer, gx, gy));
        GrewFurther(buckets, before, buckets');
        FiledOneMore(layer, before, buckets', Entry(index, box), gx, gy);
        gy := gy + 1;
      }
      FiledColumn(layer, buckets', Entry(index, box), gx, gy);
      gx := gx + 1;
    }
  }

  /** The first `n` graphics' boxes are filed. */
  ghost predicate AllFiled(graphics: seq<Graphic>, buckets: Buckets, n: nat)
    requires n <= |graphics|
  {
    forall i, k :: 0 <= i < n && 0 <= k < |graphics[i].boxes| ==> Filed(graphics, buckets, i, graphics[i].boxes[k])
  }

  /** And of the next one, the first `k` boxes. */
  ghost predicate BoxesFiled(graphics: seq<Graphic>, buckets: Buckets, index: nat, k: nat)
    requires index < |graphics| && k <= |graphics[index].boxes|
  {
    AllFiled(graphics, buckets, index) && forall m :: 0 <= m < k ==>
        Filed(graphics, buckets, index, graphics[index].boxes[m])
  }

  lemma OneMoreBox(graphics: seq<Graphic>, buckets: Buckets, buckets': Buckets, index: nat, k: nat)
    requires index < |graphics| && k < |graphics[index].boxes| && BoxesFiled(graphics, buckets, index, k)
    requires Grew(buckets, buckets') && Filed(graphics, buckets', index, graphics[index].boxes[k])
    ensures BoxesFiled(graphics, buckets', index, k + 1)
  {
    forall i, m | 0 <= i < index && 0 <= m < |graphics[i].boxes|
      ensures Filed(graphics, buckets', i, graphics[i].boxes[m]) {
      FiledStays(graphics, buckets, buckets', i, graphics[i].boxes[m]);
    }
    forall m | 0 <= m < k ensures Filed(graphics, buckets', index, graphics[index].boxes[m]) {
      FiledStays(graphics, buckets, buckets', index, graphics[index].boxes[m]);
    }
  }

  lemma FiledStays(graphics: seq<Graphic>, buckets: Buckets, buckets': Buckets, index: nat, box: Box)
    requires index < |graphics| && Filed(graphics, buckets, index, box) && Grew(buckets, buckets')
    ensures Filed(graphics, buckets', index, box)
  {
  }

  /** Reading the next graphic changes nothing joined so far. */
  lemma NextGraphic(graphics: seq<Graphic>, p: seq<nat>, last: nat, buckets: Buckets)
    requires State(graphics, p, last, buckets)
    ensures State(graphics, p, last + 1, buckets)
  {
    forall cell, k | 0 <= k < |BucketAt(buckets, cell)|
      ensures IsEntry(graphics, last + 1, cell, BucketAt(buckets, cell)[k])
    {
      assert IsEntry(graphics, last, cell, BucketAt(buckets, cell)[k]);
    }
  }

  lemma CloseEntriesHaveOneRoot(p: seq<nat>, bucket: seq<Entry>, e: Entry, f: Entry)
    requires Forest(p) && Linked(p, bucket) && e in bucket && f in bucket && e.index < |p| && f.index < |p|
    requires Within(e.box, f.box, CLUSTER_GAP)
    ensures Root(p, e.index) == Root(p, f.index)
  {
    var u :| 0 <= u < |bucket| && bucket[u] == e;
    var v :| 0 <= v < |bucket| && bucket[v] == f;
  }

  lemma IsFiled(graphics: seq<Graphic>, buckets: Buckets, i: nat, box: Box, gx: int, gy: int)
    requires AllFiled(graphics, buckets, |graphics|) && i < |graphics| && box in graphics[i].boxes
             && Covers(box, gx, gy)
    ensures Entry(i, box) in BucketAt(buckets, Cell(graphics[i].layer, gx, gy))
  {
    var k :| 0 <= k < |graphics[i].boxes| && graphics[i].boxes[k] == box;
    assert Filed(graphics, buckets, i, graphics[i].boxes[k]);
  }

  /** Adjacent graphics have one root. */
  ghost predicate AdjacentJoined(graphics: seq<Graphic>, p: seq<nat>)
    requires Forest(p)
  {
    |p| == |graphics| && forall i: nat, j: nat :: i < |p| && j < |p| && Adjacent(graphics, i, j) ==>
        Root(p, i) == Root(p, j)
  }

  /** When every box is filed, they do. */
  lemma FiledAreJoined(graphics: seq<Graphic>, p: seq<nat>, last: nat, buckets: Buckets)
    requires State(graphics, p, last, buckets) && AllFiled(graphics, buckets, |graphics|)
    ensures AdjacentJoined(graphics, p)
  {
    forall i: nat, j: nat | i < |p| && j < |p| && Adjacent(graphics, i, j) ensures Root(p, i) == Root(p, j) {
      var a, b :| a in graphics[i].boxes && b in graphics[j].boxes && Meet(a, b);
      MeetingHaveOneRoot(graphics, p, buckets, i, a, j, b);
    }
  }

  lemma MeetingHaveOneRoot(graphics: seq<Graphic>, p: seq<nat>, buckets: Buckets, i: nat, a: Box, j: nat, b: Box)
    requires Forest(p) && AllLinked(p, buckets) && AllFiled(graphics, buckets, |graphics|) && |p| == |graphics|
    requires i < |p| && j < |p| && a in graphics[i].boxes && b in graphics[j].boxes
             && graphics[i].layer == graphics[j].layer
    requires Meet(a, b)
    ensures Root(p, i) == Root(p, j)
  {
    CloseBoxesShareCell(a, b);
    var gx, gy :| Covers(a, gx, gy) && Covers(b, gx, gy);
    IsFiled(graphics, buckets, i, a, gx, gy);
    IsFiled(graphics, buckets, j, b, gx, gy);
    CloseEntriesHaveOneRoot(p, BucketAt(buckets, Cell(graphics[i].layer, gx, gy)), Entry(i, a), Entry(j, b));
  }

  lemma {:induction false} ChainHasOneRoot(graphics: seq<Graphic>, p: seq<nat>, chain: seq<nat>)
    requires Forest(p) && AdjacentJoined(graphics, p) && IsChain(graphics, chain) && |chain| > 0
    ensures Root(p, chain[0]) == Root(p, chain[|chain| - 1])
  {
    if |chain| > 1 {
      assert Adjacent(graphics, chain[0], chain[0 + 1]);
      forall k | 0 <= k < |chain| - 2 ensures Adjacent(graphics, chain[1..][k], chain[1..][k + 1]) {
        assert Adjacent(graphics, chain[k + 1], chain[k + 1 + 1]);
      }
      ChainHasOneRoot(graphics, p, chain[1..]);
    }
  }

  /** The roots at the end are exactly the connected components. */
  lemma RootsAreComponents(graphics: seq<Graphic>, p: seq<nat>, last: nat, buckets: Buckets)
    requires State(graphics, p, last, buckets) && AllFiled(graphics, buckets, |graphics|)
    ensures RootsExact(graphics, p)
  {
    FiledAreJoined(graphics, p, last, buckets);
    forall i: nat, j: nat | i < |p| && j < |p| && Root(p, i) == Root(p, j) ensures Connected(graphics, i, j) {
      ConnectedBothWays(graphics, j, Root(p, j));
      ConnectedThrough(graphics, i, Root(p, i), j);
    }
    forall i: nat, j: nat | i < |p| && j < |p| && Connected(graphics, i, j) ensures Root(p, i) == Root(p, j) {
      var chain: seq<nat> :| IsChain(graphics, chain) && |chain| > 0 && chain[0] == i && chain[|chain| - 1] == j;
      ChainHasOneRoot(graphics, p, chain);
    }
  }

  ghost predicate RootsExact(graphics: seq<Graphic>, p: seq<nat>)
    requires Forest(p)
  {
    |p| == |graphics| && forall i: nat, j: nat :: i < |p| && j < |p| ==>
        (Root(p, i) == Root(p, j) <==> Connected(graphics, i, j))
  }

  /** Reads every graphic's boxes: afterwards two graphics have one root exactly when they are connected. */
  method Join(graphics: seq<Graphic>) returns (parent: array<nat>)
    ensures fresh(parent) && JoinedUpTo(parent[..], |graphics|)
    ensures RootsExact(graphics, parent[..])
  {
    parent := new nat[|graphics|](i => i);
    var buckets: Buckets := map[];
    StartState(graphics, parent[..]);
    for index := 0 to |graphics|
      invariant State(graphics, parent[..], index, buckets) && AllFiled(graphics, buckets, index)
    {
      buckets := FileGraphic(graphics, parent, buckets, index);
      NextGraphic(graphics, parent[..], index, buckets);
    }
    RootsAreComponents(graphics, parent[..], |graphics|, buckets);
  }

  /** Files a graphic's boxes. */
  method FileGraphic(graphics: seq<Graphic>, parent: array<nat>, buckets: Buckets, index: nat)
    returns (buckets': Buckets)
    requires index < |graphics| == parent.Length
    requires State(graphics, parent[..], index, buckets) && AllFiled(graphics, buckets, index)
    modifies parent
    ensures State(graphics, parent[..], index, buckets') && AllFiled(graphics, buckets', index + 1)
  {
    buckets' := buckets;
    for k := 0 to |graphics[index].boxes|
      invariant State(graphics, parent[..], index, buckets') && BoxesFiled(graphics, buckets', index, k)
    {
      ghost var before := buckets';
      buckets' := FileBox(graphics, parent, buckets', index, graphics[index].boxes[k]);
      OneMoreBox(graphics, before, buckets', index, k);
    }
  }

  lemma StartState(graphics: seq<Graphic>, p: seq<nat>)
    requires |p| == |graphics| && forall i :: 0 <= i < |p| ==> p[i] == i
    ensures State(graphics, p, 0, map[])
  {
    forall k | 0 <= k < |p| ensures Connected(graphics, k, Root(p, k)) {
      ConnectedToItself(graphics, k);
    }
  }

  // --- The groups ---------------------------------------------------------------------

  /** The first `n` indices with root `r`, in their order. */
  function MembersOf(roots: seq<nat>, r: nat, n: nat): (members: seq<nat>)
    requires n <= |roots|
    ensures forall i: nat :: i in members <==> i < n && roots[i] == r
  {
    if n == 0 then [] else MembersOf(roots, r, n - 1) + (if roots[n - 1] == r then [n - 1] else [])
  }

  lemma {:induction false} MembersIncrease(roots: seq<nat>, r: nat, n: nat)
    requires n <= |roots|
    ensures Increasing(MembersOf(roots, r, n))
  {
    if n > 0 {
      MembersIncrease(roots, r, n - 1);
      var before := MembersOf(roots, r, n - 1);
      forall k | 0 <= k < |before| ensures before[k] < n - 1 {
        assert before[k] in before;
      }
    }
  }

  predicate Increasing(xs: seq<nat>) {
    forall a, b :: 0 <= a < b < |xs| ==> xs[a] < xs[b]
  }

  /** Each key's indices are those of its root so far. */
  ghost predicate MembersAre(roots: seq<nat>, n: nat, members: map<nat, seq<nat>>)
    requires n <= |roots|
  {
    forall r :: r in members ==> members[r] == MembersOf(roots, r, n) && members[r] != []
  }

  ghost predicate AllFiledByRoot(roots: seq<nat>, n: nat, members: map<nat, seq<nat>>)
    requires n <= |roots|
  {
    forall i :: 0 <= i < n ==> roots[i] in members
  }

  ghost predicate KeysAre(keys: seq<nat>, members: map<nat, seq<nat>>) { forall r :: r in keys <==> r in members }

  /** Groups in the order of their first indices. */
  ghost predicate FirstsRise(groups: seq<seq<nat>>) {
    forall a, b :: 0 <= a < b < |groups| && groups[a] != [] && groups[b] != [] ==> groups[a][0] < groups[b][0]
  }

  function GroupsAt(keys: seq<nat>, members: map<nat, seq<nat>>): (groups: seq<seq<nat>>)
    ensures |groups| == |keys| && forall g :: 0 <= g < |keys| ==> groups[g] == MembersAt(members, keys[g])
  {
    seq(|keys|, g requires 0 <= g < |keys| => MembersAt(members, keys[g]))
  }

  /** The dictionary of groups after `n` indices: its keys in the order they came, each with its indices. */
  ghost predicate Grouped(roots: seq<nat>, n: nat, keys: seq<nat>, members: map<nat, seq<nat>>)
    requires n <= |roots|
  {
    && KeysAre(keys, members) && MembersAre(roots, n, members) && AllFiledByRoot(roots, n, members)
    && FirstsRise(GroupsAt(keys, members))
  }

  lemma {:induction false} NoMembers(roots: seq<nat>, r: nat, n: nat)
    requires n <= |roots| && forall i :: 0 <= i < n ==> roots[i] != r
    ensures MembersOf(roots, r, n) == []
  {
    if n > 0 {
      NoMembers(roots, r, n - 1);
    }
  }

  function MembersAt(members: map<nat, seq<nat>>, r: nat): seq<nat> { if r in members then members[r] else [] }

  lemma MembersOfOneMore(roots: seq<nat>, n: nat, members: map<nat, seq<nat>>, k: nat)
    requires n < |roots| && MembersAre(roots, n, members) && AllFiledByRoot(roots, n, members)
    ensures MembersAt(members, k) + (if k == roots[n] then [n] else [])
            == if k in members || k == roots[n] then MembersOf(roots, k, n + 1) else []
  {
    if k !in members {
      NoMembers(roots, k, n);
    }
  }

  lemma MembersOneMore(roots: seq<nat>, n: nat, members: map<nat, seq<nat>>)
    requires n < |roots| && MembersAre(roots, n, members) && AllFiledByRoot(roots, n, members)
    ensures var members' := members[roots[n] := MembersAt(members, roots[n]) + [n]];
            MembersAre(roots, n + 1, members') && AllFiledByRoot(roots, n + 1, members')
  {
    var r := roots[n];
    var members' := members[r := MembersAt(members, r) + [n]];
    forall k | k in members' ensures members'[k] == MembersOf(roots, k, n + 1) && members'[k] != [] {
      MembersOfOneMore(roots, n, members, k);
    }
  }

  lemma FirstStays(roots: seq<nat>, n: nat, members: map<nat, seq<nat>>, k: nat)
    requires n < |roots| && MembersAre(roots, n, members) && k in members
    ensures var r := roots[n];
            var before, after := members[k], MembersAt(members[r := MembersAt(members, r) + [n]], k);
            before != [] && after != [] && after[0] == before[0] < n
  {
    assert members[k][0] in MembersOf(roots, k, n);
  }

  lemma FirstsRiseWithLast(groups: seq<seq<nat>>, groups': seq<seq<nat>>, n: nat)
    requires FirstsRise(groups) && |groups| <= |groups'| <= |groups| + 1
    requires forall g :: 0 <= g < |groups| ==> groups[g] != [] && groups'[g] != [] && groups'[g][0] == groups[g][0] < n
    requires |groups'| > |groups| ==> groups'[|groups|] == [n]
    ensures FirstsRise(groups')
  {
  }

  lemma FirstsStillRise(roots: seq<nat>, n: nat, keys: seq<nat>, members: map<nat, seq<nat>>)
    requires n < |roots| && KeysAre(keys, members) && MembersAre(roots, n, members)
             && FirstsRise(GroupsAt(keys, members))
    ensures var r := roots[n];
            FirstsRise(GroupsAt(if r in members then keys else keys + [r], members[r := MembersAt(members, r) + [n]]))
  {
    var r := roots[n];
    var keys' := if r in members then keys else keys + [r];
    var groups, groups' := GroupsAt(keys, members), GroupsAt(keys', members[r := MembersAt(members, r) + [n]]);
    forall g | 0 <= g < |keys| ensures groups[g] != [] && groups'[g] != [] && groups'[g][0] == groups[g][0] < n {
      assert keys[g] in keys && keys'[g] == keys[g];
      FirstStays(roots, n, members, keys[g]);
    }
    FirstsRiseWithLast(groups, groups', n);
  }

  lemma GroupedOneMore(roots: seq<nat>, n: nat, keys: seq<nat>, members: map<nat, seq<nat>>)
    requires n < |roots| && Grouped(roots, n, keys, members)
    ensures var r := roots[n];
            Grouped(roots, n + 1, if r in members then keys else keys + [r], members[r := MembersAt(members, r) + [n]])
  {
    MembersOneMore(roots, n, members);
    FirstsStillRise(roots, n, keys, members);
    KeysStillAre(keys, members, roots[n], MembersAt(members, roots[n]) + [n]);
  }

  lemma KeysStillAre(keys: seq<nat>, members: map<nat, seq<nat>>, r: nat, group: seq<nat>)
    requires KeysAre(keys, members)
    ensures KeysAre(if r in members then keys else keys + [r], members[r := group])
  {
  }

  lemma GroupedByRoot(roots: seq<nat>, keys: seq<nat>, members: map<nat, seq<nat>>)
    requires Grouped(roots, |roots|, keys, members)
    ensures GroupsByRoot(roots, keys, GroupsAt(keys, members))
  {
    var groups := GroupsAt(keys, members);
    forall g | 0 <= g < |groups| ensures groups[g] != [] && groups[g] == MembersOf(roots, keys[g], |roots|) {
      assert keys[g] in keys;
    }
    forall a, b | 0 <= a < b < |keys| ensures keys[a] != keys[b] {
      assert groups[a][0] < groups[b][0];
    }
  }

  predicate InSome(groups: seq<seq<nat>>, i: nat) {
    exists g :: 0 <= g < |groups| && i in groups[g]
  }

  /** Every index is in exactly one group, at one place; a group's indices increase, none is empty, and the groups
      stand in the order of their first indices. */
  ghost predicate IsPartition(groups: seq<seq<nat>>, n: nat) {
    && (forall g :: 0 <= g < |groups| ==> groups[g] != [] && Increasing(groups[g]))
    && (forall g, i :: 0 <= g < |groups| && i in groups[g] ==> i < n)
    && (forall i: nat :: i < n ==> InSome(groups, i))
    && (forall g, g', i :: 0 <= g < |groups| && 0 <= g' < |groups| && i in groups[g] && i in groups[g'] ==> g == g')
    && FirstsRise(groups)
  }

  predicate Together(groups: seq<seq<nat>>, i: nat, j: nat) {
    exists g :: 0 <= g < |groups| && i in groups[g] && j in groups[g]
  }

  /** One group for every root, of the indices with that root. */
  ghost predicate GroupsByRoot(roots: seq<nat>, keys: seq<nat>, groups: seq<seq<nat>>) {
    && |groups| == |keys| && FirstsRise(groups)
    && (forall a, b :: 0 <= a < b < |keys| ==> keys[a] != keys[b])
    && (forall i :: 0 <= i < |roots| ==> roots[i] in keys)
    && (forall g :: 0 <= g < |groups| ==> groups[g] != [] && groups[g] == MembersOf(roots, keys[g], |roots|))
  }

  lemma GroupOf(roots: seq<nat>, keys: seq<nat>, groups: seq<seq<nat>>, i: nat) returns (g: nat)
    requires GroupsByRoot(roots, keys, groups) && i < |roots|
    ensures g < |groups| && keys[g] == roots[i] && i in groups[g]
    ensures forall g' :: 0 <= g' < |groups| && i in groups[g'] ==> g' == g
  {
    g :| 0 <= g < |keys| && keys[g] == roots[i];
    assert i in MembersOf(roots, keys[g], |roots|);
    forall g' | 0 <= g' < |groups| && i in groups[g'] ensures g' == g {
      assert i in MembersOf(roots, keys[g'], |roots|);
    }
  }

  lemma TogetherByRoot(roots: seq<nat>, keys: seq<nat>, groups: seq<seq<nat>>, i: nat, j: nat)
    requires GroupsByRoot(roots, keys, groups) && i < |roots| && j < |roots|
    ensures Together(groups, i, j) <==> roots[i] == roots[j]
  {
    var g := GroupOf(roots, keys, groups, i);
    var h := GroupOf(roots, keys, groups, j);
    if roots[i] == roots[j] {
      assert g == h;
    }
  }

  lemma GroupsPartition(roots: seq<nat>, keys: seq<nat>, groups: seq<seq<nat>>)
    requires GroupsByRoot(roots, keys, groups)
    ensures IsPartition(groups, |roots|)
  {
    forall g | 0 <= g < |groups|
      ensures groups[g] != [] && Increasing(groups[g]) && forall i :: i in groups[g] ==> i < |roots| {
      MembersIncrease(roots, keys[g], |roots|);
    }
    forall i: nat | i < |roots| ensures InSome(groups, i) {
      var g := GroupOf(roots, keys, groups, i);
    }
    forall g, g', i | 0 <= g < |groups| && 0 <= g' < |groups| && i in groups[g] && i in groups[g'] ensures g == g' {
      assert i in MembersOf(roots, keys[g], |roots|);
      var h := GroupOf(roots, keys, groups, i);
    }
  }

  /** Files every index under its root. */
  method FileByRoot(parent: array<nat>, ghost roots: seq<nat>) returns (keys: seq<nat>, members: map<nat, seq<nat>>)
    requires JoinedUpTo(parent[..], parent.Length) && |roots| == parent.Length
    requires forall k :: 0 <= k < |roots| ==> roots[k] == Root(parent[..], k)
    modifies parent
    ensures Grouped(roots, |roots|, keys, members)
  {
    ghost var p := parent[..];
    keys, members := [], map[];
    for index := 0 to parent.Length
      invariant JoinedUpTo(parent[..], parent.Length) && SameRoots(p, parent[..])
      invariant Grouped(roots, index, keys, members)
    {
      var root := Find(parent, index, parent.Length);
      assert root == roots[index];
      keys, members := FileUnder(roots, index, root, keys, members);
    }
  }

  method FileUnder(ghost roots: seq<nat>, index: nat, root: nat, keys: seq<nat>, members: map<nat, seq<nat>>)
    returns (keys': seq<nat>, members': map<nat, seq<nat>>)
    requires index < |roots| && root == roots[index] && Grouped(roots, index, keys, members)
    ensures Grouped(roots, index + 1, keys', members')
  {
    GroupedOneMore(roots, index, keys, members);
    keys' := if root in members then keys else keys + [root];
    members' := members[root := MembersAt(members, root) + [index]];
  }

  /** Collects the indices by their roots. */
  method CollectGroups(parent: array<nat>, ghost roots: seq<nat>) returns (groups: seq<seq<nat>>)
    requires JoinedUpTo(parent[..], parent.Length) && |roots| == parent.Length
    requires forall k :: 0 <= k < |roots| ==> roots[k] == Root(parent[..], k)
    modifies parent
    ensures IsPartition(groups, |roots|)
    ensures forall i: nat, j: nat :: i < |roots| && j < |roots| ==> (Together(groups, i, j) <==> roots[i] == roots[j])
  {
    var keys, members := FileByRoot(parent, roots);
    groups := GroupsAt(keys, members);
    GroupedByRoot(roots, keys, members);
    GroupsByRootAre(roots, keys, groups);
  }

  lemma GroupsByRootAre(roots: seq<nat>, keys: seq<nat>, groups: seq<seq<nat>>)
    requires GroupsByRoot(roots, keys, groups)
    ensures IsPartition(groups, |roots|)
    ensures forall i: nat, j: nat :: i < |roots| && j < |roots| ==> (Together(groups, i, j) <==> roots[i] == roots[j])
  {
    GroupsPartition(roots, keys, groups);
    forall i: nat, j: nat | i < |roots| && j < |roots| ensures Together(groups, i, j) <==> roots[i] == roots[j] {
      TogetherByRoot(roots, keys, groups, i, j);
    }
  }

  /** The clusters: the groups partition the graphics, and two graphics share one exactly when a chain of boxes
      with cells joins them, each within the gap of the next on one layer; by the gap alone, exactly when every two
      close graphics are so joined, as they are where every box has a cell. */
  method Cluster(graphics: seq<Graphic>) returns (groups: seq<seq<nat>>)
    ensures IsPartition(groups, |graphics|)
    ensures forall i: nat, j: nat :: i < |graphics| && j < |graphics| ==>
              (Together(groups, i, j) <==> Connected(graphics, i, j))
    ensures (forall i: nat, j: nat :: i < |graphics| && j < |graphics| ==>
               (Together(groups, i, j) <==> ChainJoins(graphics, i, j))) <==> CloseAreConnected(graphics)
    ensures AllHaveCells(graphics) ==> CloseAreConnected(graphics)
  {
    var parent := Join(graphics);
    ghost var roots := RootsOf(parent[..]);
    assert RootsExact(graphics, parent[..]);
    groups := CollectGroups(parent, roots);
    forall i: nat, j: nat | i < |graphics| && j < |graphics|
      ensures Together(groups, i, j) <==> Connected(graphics, i, j) {
      assert Together(groups, i, j) <==> roots[i] == roots[j];
    }
    TogetherByGap(graphics, groups);
  }

  lemma TogetherByGap(graphics: seq<Graphic>, groups: seq<seq<nat>>)
    requires forall i: nat, j: nat :: i < |graphics| && j < |graphics| ==>
               (Together(groups, i, j) <==> Connected(graphics, i, j))
    ensures (forall i: nat, j: nat :: i < |graphics| && j < |graphics| ==>
               (Together(groups, i, j) <==> ChainJoins(graphics, i, j))) <==> CloseAreConnected(graphics)
    ensures AllHaveCells(graphics) ==> CloseAreConnected(graphics)
  {
    LosesNothingExactly(graphics);
  }

  function RootsOf(p: seq<nat>): (roots: seq<nat>)
    requires Forest(p)
    ensures |roots| == |p| && forall k :: 0 <= k < |p| ==> roots[k] == Root(p, k)
  {
    seq(|p|, k requires 0 <= k < |p| => Root(p, k))
  }
}
