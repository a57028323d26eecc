/** Which holder a process's memory belongs to: `memory_sample`'s walk over the process tree. */
module Attribution {
  import opened Reservations
  import opened Sequences

  /** One entry of the process table, in the table's order: a pid, its parent's and its resident MB. */
  datatype Row = Row(pid: int, parent: int, residentMb: Mb)

  /** A table's pids are its keys: no two rows share one. */
  predicate IsTable(table: seq<Row>) {
    forall i, j :: 0 <= i < j < |table| ==> table[i].pid != table[j].pid
  }

  function Pids(table: seq<Row>): set<int> { set row | row in table :: row.pid }

  /** The resident memory of the table's processes in `pids`. */
  function Resident(table: seq<Row>, pids: set<int>): Mb {
    if table == [] then 0.0
    else (if table[0].pid in pids then table[0].residentMb else 0.0) + Resident(table[1..], pids)
  }

  /** A process's resident memory, 0 for one that the table has not. */
  function Lookup(table: seq<Row>, pid: int): Mb { Resident(table, {pid}) }

  /** `p`'s `k`-th ancestor is `h`, over processes of the table only, none before it a holder. */
  ghost predicate ClimbsTo(table: seq<Row>, holders: set<int>, p: int, h: int, k: nat)
    decreases k
  {
    if k == 0 then p == h && p in Pids(table)
    else
      p !in holders
      && exists i :: 0 <= i < |table| && table[i].pid == p && ClimbsTo(table, holders, table[i].parent, h, k - 1)
  }

  /** The first holder on the way up from `p`, itself included, is `h`. */
  ghost predicate BelongsTo(table: seq<Row>, holders: set<int>, p: int, h: int) {
    h in holders && exists k: nat :: ClimbsTo(table, holders, p, h, k)
  }

  ghost function TreeOf(table: seq<Row>, holders: set<int>, h: int): (tree: set<int>)
    ensures tree <= Pids(table)
  {
    set p | p in Pids(table) && BelongsTo(table, holders, p, h)
  }

  /** The processes at or below some holder. */
  ghost function Owned(table: seq<Row>, holders: set<int>): set<int> {
    set p | p in Pids(table) && exists h :: h in holders && BelongsTo(table, holders, p, h)
  }

  lemma {:induction false} ClimbsToOne(table: seq<Row>, holders: set<int>, p: int, h: int, k: nat, h': int, k': nat)
    requires IsTable(table) && h in holders && h' in holders
    requires ClimbsTo(table, holders, p, h, k) && ClimbsTo(table, holders, p, h', k')
    ensures h == h'
    decreases k
  {
    if k > 0 && k' > 0 {
      var i :| 0 <= i < |table| && table[i].pid == p && ClimbsTo(table, holders, table[i].parent, h, k - 1);
      var j :| 0 <= j < |table| && table[j].pid == p && ClimbsTo(table, holders, table[j].parent, h', k' - 1);
      assert i == j;
      ClimbsToOne(table, holders, table[i].parent, h, k - 1, h', k' - 1);
    }
  }

  /** A process belongs to one holder at most. */
  lemma BelongsToOne(table: seq<Row>, holders: set<int>, p: int, h: int, h': int)
    requires IsTable(table) && BelongsTo(table, holders, p, h) && BelongsTo(table, holders, p, h')
    ensures h == h'
  {
    var k: nat :| ClimbsTo(table, holders, p, h, k);
    var k': nat :| ClimbsTo(table, holders, p, h', k');
    ClimbsToOne(table, holders, p, h, k, h', k');
  }

  lemma HolderBelongsToItself(table: seq<Row>, holders: set<int>, h: int)
    requires h in holders && h in Pids(table)
    ensures BelongsTo(table, holders, h, h)
    ensures IsTable(table) ==> forall h' :: BelongsTo(table, holders, h, h') ==> h' == h
  {
    assert ClimbsTo(table, holders, h, h, 0);
    if IsTable(table) {
      forall h' | BelongsTo(table, holders, h, h') ensures h' == h {
        BelongsToOne(table, holders, h, h, h');
      }
    }
  }

  /** A child that is no holder belongs where its parent does. */
  lemma ChildBelongsWithParent(table: seq<Row>, holders: set<int>, i: nat, h: int)
    requires IsTable(table) && i < |table| && table[i].pid !in holders
    ensures BelongsTo(table, holders, table[i].pid, h) <==> BelongsTo(table, holders, table[i].parent, h)
  {
    var p := table[i].pid;
    if BelongsTo(table, holders, p, h) {
      var k: nat :| ClimbsTo(table, holders, p, h, k);
      var j :| 0 <= j < |table| && table[j].pid == p && ClimbsTo(table, holders, table[j].parent, h, k - 1);
      assert j == i;
    }
    if BelongsTo(table, holders, table[i].parent, h) {
      var k: nat :| ClimbsTo(table, holders, table[i].parent, h, k);
      assert ClimbsTo(table, holders, p, h, k + 1);
    }
  }

  // --- Sums ------------------------------------------------------------------------

  lemma {:induction false} ResidentOfDisjoint(table: seq<Row>, a: set<int>, b: set<int>)
    requires a !! b
    ensures Resident(table, a + b) == Resident(table, a) + Resident(table, b)
  {
    if table != [] {
      ResidentOfDisjoint(table[1..], a, b);
    }
  }

  // --- The walk --------------------------------------------------------------------

  /** `children`: each parent's pids in the table's order. */
  function Children(table: seq<Row>, parent: int): seq<int> {
    if table == [] then []
    else (if table[0].parent == parent then [table[0].pid] else []) + Children(table[1..], parent)
  }

  lemma {:induction false} ChildrenOfConcat(a: seq<Row>, b: seq<Row>, parent: int)
    ensures Children(a + b, parent) == Children(a, parent) + Children(b, parent)
  {
    if a == [] {
      assert a + b == b;
    } else {
      assert (a + b)[1..] == a[1..] + b;
      ChildrenOfConcat(a[1..], b, parent);
      var first := if a[0].parent == parent then [a[0].pid] else [];
      assert Children(a + b, parent) == first + (Children(a[1..], parent) + Children(b, parent));
    }
  }

  lemma {:induction false} ChildrenAre(table: seq<Row>, parent: int, c: int)
    ensures c in Children(table, parent) <==>
              exists i :: 0 <= i < |table| && table[i].pid == c && table[i].parent == parent
  {
    if table != [] {
      ChildrenAre(table[1..], parent, c);
      if exists i :: 0 <= i < |table| && table[i].pid == c && table[i].parent == parent {
        var i :| 0 <= i < |table| && table[i].pid == c && table[i].parent == parent;
        if i > 0 { assert table[1..][i - 1] == table[i]; }
      }
      if c in Children(table[1..], parent) {
        var i :| 0 <= i < |table[1..]| && table[1..][i].pid == c && table[1..][i].parent == parent;
        assert table[i + 1] == table[1..][i];
      }
    }
  }

  function ChildrenIn(children: map<int, seq<int>>, parent: int): seq<int> {
    if parent in children then children[parent] else []
  }

  ghost predicate IsChildrenTable(children: map<int, seq<int>>, table: seq<Row>) {
    forall parent :: ChildrenIn(children, parent) == Children(table, parent)
  }

  lemma OneMoreRow(children: map<int, seq<int>>, table: seq<Row>, row: Row)
    requires IsChildrenTable(children, table)
    ensures IsChildrenTable(children[row.parent := ChildrenIn(children, row.parent) + [row.pid]], table + [row])
  {
    var children' := children[row.parent := ChildrenIn(children, row.parent) + [row.pid]];
    forall parent ensures ChildrenIn(children', parent) == Children(table + [row], parent) {
      ChildrenOfConcat(table, [row], parent);
      assert Children([row], parent) == if row.parent == parent then [row.pid] else [];
      assert ChildrenIn(children, parent) == Children(table, parent);
    }
  }

  /** The table of children, filled row by row. */
  method ChildrenTable(table: seq<Row>) returns (children: map<int, seq<int>>)
    ensures IsChildrenTable(children, table)
  {
    children := map[];
    for n := 0 to |table|
      invariant IsChildrenTable(children, table[..n])
    {
      OneMoreRow(children, table[..n], table[n]);
      assert table[..n + 1] == table[..n] + [table[n]];
      children := children[table[n].parent := ChildrenIn(children, table[n].parent) + [table[n].pid]];
    }
    assert table[..|table|] == table;
  }

  /** A set of processes that holder `h` may walk: no other holder, and with a process every child but holders. */
  ghost predicate Fits(table: seq<Row>, holders: set<int>, h: int, tree: set<int>) {
    && h in tree && h in holders
    && (forall p :: p in tree && p in holders ==> p == h)
    && (forall i :: 0 <= i < |table| && table[i].parent in tree && table[i].pid !in holders ==> table[i].pid in tree)
  }

  lemma TreeFits(table: seq<Row>, holders: set<int>, h: int)
    requires IsTable(table) && h in holders && h in Pids(table)
    ensures Fits(table, holders, h, TreeOf(table, holders, h))
  {
    HolderBelongsToItself(table, holders, h);
    forall p | p in TreeOf(table, holders, h) && p in holders ensures p == h {
      HolderBelongsToItself(table, holders, p);
    }
    forall i | 0 <= i < |table| && table[i].parent in TreeOf(table, holders, h) && table[i].pid !in holders
      ensures table[i].pid in TreeOf(table, holders, h)
    {
      ChildBelongsWithParent(table, holders, i, h);
    }
  }

  /** The walk's state: what is on the stack may be walked or is another holder, and every child of a walked
      process is walked, on the stack, or another holder. */
  ghost predicate Walking(table: seq<Row>, holders: set<int>, h: int, tree: set<int>, walked: set<int>,
                          stack: seq<int>) {
    && walked <= tree
    && (forall p :: p in stack ==> p in tree || p in holders)
    && (h in stack || h in walked)
    && (forall i :: 0 <= i < |table| && table[i].parent in walked ==>
          table[i].pid in walked || table[i].pid in stack || table[i].pid in holders)
  }

  function Popped(stack: seq<int>): seq<int>
    requires stack != []
  {
    stack[..|stack| - 1]
  }

  lemma PoppedOrTop(stack: seq<int>)
    requires stack != []
    ensures forall p :: p in stack <==> p == stack[|stack| - 1] || p in Popped(stack)
  {
    assert stack == Popped(stack) + [stack[|stack| - 1]];
  }

  lemma WalkSkips(table: seq<Row>, holders: set<int>, h: int, tree: set<int>, counted: set<int>, walked: set<int>,
                  stack: seq<int>)
    requires stack != [] && Walking(table, holders, h, tree, walked, stack)
    requires Fits(table, holders, h, tree) && counted !! tree
    requires var pid := stack[|stack| - 1]; pid in counted + walked || (pid in holders && pid != h)
    ensures Walking(table, holders, h, tree, walked, Popped(stack))
  {
    PoppedOrTop(stack);
  }

  lemma WalkVisits(table: seq<Row>, children: map<int, seq<int>>, holders: set<int>, h: int, tree: set<int>,
                   walked: set<int>, stack: seq<int>)
    requires stack != [] && Walking(table, holders, h, tree, walked, stack)
    requires Fits(table, holders, h, tree) && IsChildrenTable(children, table)
    requires var pid := stack[|stack| - 1]; pid !in walked && (pid !in holders || pid == h)
    ensures var pid := stack[|stack| - 1];
            && pid in tree
            && Walking(table, holders, h, tree, walked + {pid}, Popped(stack) + ChildrenIn(children, pid))
            && Resident(table, walked + {pid}) == Resident(table, walked) + Lookup(table, pid)
  {
    var pid := stack[|stack| - 1];
    PoppedOrTop(stack);
    ResidentOfDisjoint(table, walked, {pid});
    var below := ChildrenIn(children, pid);
    forall p | p in below ensures p in tree || p in holders {
      ChildrenAre(table, pid, p);
    }
    forall i | 0 <= i < |table| && table[i].parent == pid ensures table[i].pid in below {
      ChildrenAre(table, pid, table[i].pid);
    }
  }

  /** The walk down from holder `h` inside `tree`: it ends, counts every process once, and reaches with a
      process every child but the other holders. */
  method WalkInside(table: seq<Row>, children: map<int, seq<int>>, holders: set<int>, h: int, counted: set<int>,
                    ghost tree: set<int>)
    returns (sum: Mb, counted': set<int>, ghost walked: set<int>)
    requires IsChildrenTable(children, table) && Fits(table, holders, h, tree) && counted !! tree
    ensures counted' == counted + walked && walked <= tree && sum == Resident(table, walked)
    ensures Walking(table, holders, h, tree, walked, [])
  {
    counted' := counted;
    sum := 0.0;
    walked := {};
    var stack := [h];
    NothingResident(table);
    while stack != []
      invariant counted' == counted + walked
      invariant sum == Resident(table, walked)
      invariant Walking(table, holders, h, tree, walked, stack)
      decreases |tree - walked|, |stack|
    {
      var pid := stack[|stack| - 1];
      if pid in counted' || (pid in holders && pid != h) {
        WalkSkips(table, holders, h, tree, counted, walked, stack);
        stack := Popped(stack);
      } else {
        WalkVisits(table, children, holders, h, tree, walked, stack);
        CountedShrinks(tree, counted, walked, pid);
        counted' := counted' + {pid};
        walked := walked + {pid};
        sum := sum + Lookup(table, pid);
        stack := Popped(stack) + ChildrenIn(children, pid);
      }
    }
  }

  lemma CountedShrinks(tree: set<int>, counted: set<int>, walked: set<int>, pid: int)
    requires pid in tree && pid !in counted + walked
    ensures (counted + walked) + {pid} == counted + (walked + {pid})
    ensures |tree - (walked + {pid})| < |tree - walked|
  {
    assert tree - walked == (tree - (walked + {pid})) + {pid};
  }

  lemma WalkIsDone(table: seq<Row>, holders: set<int>, h: int, walked: set<int>)
    requires Walking(table, holders, h, TreeOf(table, holders, h), walked, [])
    ensures walked == TreeOf(table, holders, h)
  {
    forall p | p in TreeOf(table, holders, h) ensures p in walked {
      var k: nat :| ClimbsTo(table, holders, p, h, k);
      ClosedReachesAll(table, holders, h, walked, p, k);
    }
  }

  /** The whole walk for holder `h` counts exactly the processes whose first holder on the way up is `h`. */
  method Walk(table: seq<Row>, children: map<int, seq<int>>, holders: set<int>, h: int, counted: set<int>)
    returns (tree: Mb, counted': set<int>)
    requires IsTable(table) && IsChildrenTable(children, table)
    requires h in holders && h in Pids(table) && counted !! TreeOf(table, holders, h)
    ensures counted' == counted + TreeOf(table, holders, h)
    ensures tree == Resident(table, TreeOf(table, holders, h))
  {
    TreeFits(table, holders, h);
    ghost var walked;
    tree, counted', walked := WalkInside(table, children, holders, h, counted, TreeOf(table, holders, h));
    WalkIsDone(table, holders, h, walked);
  }

  /** A set with the holder and, below its members, every process that is no holder has the whole tree. */
  lemma {:induction false} ClosedReachesAll(table: seq<Row>, holders: set<int>, h: int, walked: set<int>, p: int,
                                            k: nat)
    requires h in walked && ClimbsTo(table, holders, p, h, k)
    requires forall i :: 0 <= i < |table| && table[i].parent in walked ==>
               table[i].pid in walked || table[i].pid in holders
    ensures p in walked
    decreases k
  {
    if k > 0 {
      var i :| 0 <= i < |table| && table[i].pid == p && ClimbsTo(table, holders, table[i].parent, h, k - 1);
      ClosedReachesAll(table, holders, h, walked, table[i].parent, k - 1);
    }
  }

  // --- The sample ------------------------------------------------------------------

  /** The live processes that hold memory in the ledger. */
  function HolderPids(rs: seq<Reservation>, table: seq<Row>): set<int> {
    set r | r in rs && r.megabytes > 0.0 && r.pid in Pids(table) :: r.pid
  }

  ghost function TreesOf(table: seq<Row>, holders: set<int>, some: set<int>): (trees: set<int>)
    ensures trees <= Pids(table)
  {
    set p | p in Pids(table) && exists h :: h in some && BelongsTo(table, holders, p, h)
  }

  /** What the trees exceed their holders' first entries by, the holders in `seen` left out. */
  ghost function OverFrom(rs: seq<Reservation>, table: seq<Row>, holders: set<int>, seen: set<int>): Mb {
    if rs == [] then 0.0
    else if rs[0].pid !in holders || rs[0].pid in seen then OverFrom(rs[1..], table, holders, seen)
    else
      Excess(Resident(table, TreeOf(table, holders, rs[0].pid)), rs[0].megabytes)
        + OverFrom(rs[1..], table, holders, seen + {rs[0].pid})
  }

  lemma TreesOfOneMore(table: seq<Row>, holders: set<int>, some: set<int>, h: int)
    requires IsTable(table) && h !in some
    ensures TreesOf(table, holders, some + {h}) == TreesOf(table, holders, some) + TreeOf(table, holders, h)
    ensures TreesOf(table, holders, some) !! TreeOf(table, holders, h)
  {
    forall p | p in TreesOf(table, holders, some) ensures p !in TreeOf(table, holders, h) {
      var h' :| h' in some && BelongsTo(table, holders, p, h');
      if BelongsTo(table, holders, p, h) {
        BelongsToOne(table, holders, p, h, h');
      }
    }
  }

  /** The holders among the pids of `rs`. */
  function HoldersSeen(rs: seq<Reservation>, holders: set<int>): set<int> {
    set r | r in rs && r.pid in holders :: r.pid
  }

  lemma SeenIsCounted(table: seq<Row>, holders: set<int>, seen: set<int>, h: int)
    requires IsTable(table) && h in holders && h in Pids(table)
    ensures h in TreesOf(table, holders, seen) <==> h in seen
  {
    HolderBelongsToItself(table, holders, h);
  }

  lemma AllHoldersSeen(rs: seq<Reservation>, table: seq<Row>)
    ensures HoldersSeen(rs, HolderPids(rs, table)) == HolderPids(rs, table)
    ensures TreesOf(table, HolderPids(rs, table), HolderPids(rs, table)) == Owned(table, HolderPids(rs, table))
  {
  }

  /** The holders' trees of one sample: whatever the reservations' order, each process is counted at most
      once and for the first holder above it, so the trees add up to the resident memory of exactly the
      processes at or below some holder. */
  method Sample(rs: seq<Reservation>, table: seq<Row>) returns (trees: Mb, over: Mb, counted: set<int>)
    requires IsTable(table)
    ensures counted == Owned(table, HolderPids(rs, table))
    ensures trees == Resident(table, Owned(table, HolderPids(rs, table)))
    ensures over == OverFrom(rs, table, HolderPids(rs, table), {})
  {
    var children := ChildrenTable(table);
    var holders := HolderPids(rs, table);
    counted := {};
    trees, over := 0.0, 0.0;
    NothingResident(table);
    assert HoldersSeen(rs[..0], holders) == {} && rs[0..] == rs;
    for n := 0 to |rs|
      invariant Sampled(rs, table, n, trees, over, counted)
    {
      var r := rs[n];
      NextSampled(rs, table, n, trees, over, counted);
      if r.pid in holders && r.pid !in counted {
        var tree;
        tree, counted := Walk(table, children, holders, r.pid, counted);
        trees := trees + tree;
        over := over + Excess(tree, r.megabytes);
      }
    }
    assert rs[..|rs|] == rs;
    AllHoldersSeen(rs, table);
  }

  /** The least that is missing from the megabytes to cover the tree. */
  function Excess(tree: Mb, megabytes: Mb): (excess: Mb)
    ensures excess >= 0.0 && tree <= megabytes + excess && (excess == 0.0 || tree == megabytes + excess)
  {
    if tree > megabytes then tree - megabytes else 0.0
  }

  /** The sample's state after the first `n` reservations. */
  ghost predicate Sampled(rs: seq<Reservation>, table: seq<Row>, n: nat, trees: Mb, over: Mb, counted: set<int>)
    requires n <= |rs|
  {
    var holders := HolderPids(rs, table);
    var seen := HoldersSeen(rs[..n], holders);
    && counted == TreesOf(table, holders, seen)
    && trees == Resident(table, counted)
    && over + OverFrom(rs[n..], table, holders, seen) == OverFrom(rs, table, holders, {})
  }

  lemma NextSampled(rs: seq<Reservation>, table: seq<Row>, n: nat, trees: Mb, over: Mb, counted: set<int>)
    requires IsTable(table) && n < |rs| && Sampled(rs, table, n, trees, over, counted)
    ensures var holders := HolderPids(rs, table);
            var h := rs[n].pid;
            var tree := TreeOf(table, holders, h);
            if h in holders && h !in counted then
              && counted !! tree
              && Sampled(rs, table, n + 1, trees + Resident(table, tree),
                         over + Excess(Resident(table, tree), rs[n].megabytes), counted + tree)
            else Sampled(rs, table, n + 1, trees, over, counted)
  {
    var holders := HolderPids(rs, table);
    var r := rs[n];
    var seen := HoldersSeen(rs[..n], holders);
    var seen' := HoldersSeen(rs[..n + 1], holders);
    assert rs[..n + 1] == rs[..n] + [r];
    assert rs[n..][0] == r && rs[n..][1..] == rs[n + 1..];
    assert seen' == if r.pid in holders then seen + {r.pid} else seen;
    if r.pid in holders {
      SeenIsCounted(table, holders, seen, r.pid);
      if r.pid in seen {
        assert seen' == seen;
      } else {
        TreesOfOneMore(table, holders, seen, r.pid);
        ResidentOfDisjoint(table, counted, TreeOf(table, holders, r.pid));
      }
    }
  }

  lemma {:induction false} NothingResident(table: seq<Row>)
    ensures Resident(table, {}) == 0.0
  {
    if table != [] {
      NothingResident(table[1..]);
    }
  }

  /** A process of the table has its row's resident memory, any other has none, and a process more adds its own. */
  lemma {:induction false} ResidentAddsUp(table: seq<Row>, pids: set<int>, pid: int)
    requires IsTable(table)
    ensures Resident(table, {}) == 0.0
    ensures pid !in pids ==> Resident(table, pids + {pid}) == Resident(table, pids) + Lookup(table, pid)
    ensures forall i :: 0 <= i < |table| && table[i].pid == pid ==> Lookup(table, pid) == table[i].residentMb
    ensures pid !in Pids(table) ==> Lookup(table, pid) == 0.0
  {
    NothingResident(table);
    if pid !in pids {
      ResidentOfDisjoint(table, pids, {pid});
    }
    if table != [] {
      ResidentAddsUp(table[1..], pids, pid);
      assert table == [table[0]] + table[1..];
      if table[0].pid == pid {
        assert pid !in Pids(table[1..]);
      }
    }
  }

  /** One entry more adds its process to the holders exactly when it holds memory and its process is in the table. */
  lemma EntryHolds(rs: seq<Reservation>, r: Reservation, table: seq<Row>)
    ensures HolderPids([], table) == {}
    ensures HolderPids(rs + [r], table)
            == HolderPids(rs, table) + if r.megabytes > 0.0 && r.pid in Pids(table) then {r.pid} else {}
  {
    assert forall x :: x in rs + [r] <==> x in rs || x == r;
  }

  /** The sample's trees do not depend on the reservations' order. */
  lemma OrderOfReservations(rs: seq<Reservation>, rs': seq<Reservation>, table: seq<Row>)
    requires multiset(rs) == multiset(rs')
    ensures HolderPids(rs, table) == HolderPids(rs', table)
  {
    assert forall r :: r in rs <==> r in multiset(rs);
    assert forall r :: r in rs' <==> r in multiset(rs');
  }

  // --- The holders' excess and the order ---------------------------------------------

  /** What one entry's tree exceeds it by. */
  ghost function ExcessOf(r: Reservation, table: seq<Row>, holders: set<int>): Mb {
    if r.pid in holders then Excess(Resident(table, TreeOf(table, holders, r.pid)), r.megabytes) else 0.0
  }

  /** A holder's entries, where it has several, are exceeded by the same. */
  ghost predicate EqualExcess(rs: seq<Reservation>, table: seq<Row>, holders: set<int>) {
    forall i, j :: 0 <= i < j < |rs| && rs[i].pid == rs[j].pid ==>
        ExcessOf(rs[i], table, holders) == ExcessOf(rs[j], table, holders)
  }

  /** The holders seen after one more entry. */
  function SeenWith(seen: set<int>, r: Reservation, holders: set<int>): set<int> {
    if r.pid in holders then seen + {r.pid} else seen
  }

  /** What one entry adds. */
  ghost function Added(r: Reservation, table: seq<Row>, holders: set<int>, seen: set<int>): Mb {
    if r.pid in seen then 0.0 else ExcessOf(r, table, holders)
  }

  lemma OverOfFirst(r: Reservation, rs: seq<Reservation>, table: seq<Row>, holders: set<int>, seen: set<int>)
    ensures OverFrom([r] + rs, table, holders, seen)
            == Added(r, table, holders, seen) + OverFrom(rs, table, holders, SeenWith(seen, r, holders))
  {
    assert ([r] + rs)[1..] == rs;
    if r.pid in holders && r.pid in seen {
      assert seen + {r.pid} == seen;
    }
  }

  lemma FirstTwoSwapped(a: Reservation, b: Reservation, rs: seq<Reservation>, table: seq<Row>, holders: set<int>,
                        seen: set<int>)
    requires a.pid == b.pid ==> ExcessOf(a, table, holders) == ExcessOf(b, table, holders)
    ensures OverFrom([a] + ([b] + rs), table, holders, seen) == OverFrom([b] + ([a] + rs), table, holders, seen)
  {
    OverOfFirst(a, [b] + rs, table, holders, seen);
    OverOfFirst(b, rs, table, holders, SeenWith(seen, a, holders));
    OverOfFirst(b, [a] + rs, table, holders, seen);
    OverOfFirst(a, rs, table, holders, SeenWith(seen, b, holders));
    assert SeenWith(SeenWith(seen, a, holders), b, holders) == SeenWith(SeenWith(seen, b, holders), a, holders);
  }

  /** An entry taken to the front. */
  lemma {:induction false} TakenToFront(a: seq<Reservation>, r: Reservation, b: seq<Reservation>, table: seq<Row>,
                                        holders: set<int>, seen: set<int>)
    requires forall i :: 0 <= i < |a| && a[i].pid == r.pid ==>
               ExcessOf(a[i], table, holders) == ExcessOf(r, table, holders)
    ensures OverFrom(a + [r] + b, table, holders, seen) == OverFrom([r] + (a + b), table, holders, seen)
  {
    if a == [] {
      assert a + [r] + b == [r] + (a + b);
    } else {
      var x, rest := a[0], a[1..];
      var seen' := SeenWith(seen, x, holders);
      TakenToFront(rest, r, b, table, holders, seen');
      assert a + [r] + b == [x] + (rest + [r] + b);
      assert [r] + (a + b) == [r] + ([x] + (rest + b));
      OverOfFirst(x, rest + [r] + b, table, holders, seen);
      OverOfFirst(x, [r] + (rest + b), table, holders, seen);
      FirstTwoSwapped(x, r, rest + b, table, holders, seen);
    }
  }

  lemma {:induction false} OverInAnyOrder(rs: seq<Reservation>, rs': seq<Reservation>, table: seq<Row>,
                                          holders: set<int>, seen: set<int>)
    requires multiset(rs) == multiset(rs') && EqualExcess(rs, table, holders)
    ensures OverFrom(rs, table, holders, seen) == OverFrom(rs', table, holders, seen)
  {
    if rs == [] {
      assert |rs'| == |multiset(rs')| == 0;
    } else {
      var r := rs[0];
      var i := FirstContained(rs, rs');
      var a, b := rs'[..i], rs'[i + 1..];
      assert rs == [r] + rs[1..] && rs' == a + [r] + b;
      EqualToFirst(rs, a + b, table, holders);
      assert forall k :: 0 <= k < |a| ==> a[k] == (a + b)[k];
      TakenToFront(a, r, b, table, holders, seen);
      OverOfFirst(r, rs[1..], table, holders, seen);
      OverOfFirst(r, a + b, table, holders, seen);
      assert forall k :: 0 <= k < |rs[1..]| ==> rs[1..][k] == rs[k + 1];
      OverInAnyOrder(rs[1..], a + b, table, holders, SeenWith(seen, r, holders));
    }
  }

  lemma EqualToFirst(rs: seq<Reservation>, others: seq<Reservation>, table: seq<Row>, holders: set<int>)
    requires rs != [] && EqualExcess(rs, table, holders) && multiset(rs[1..]) == multiset(others)
    ensures forall i :: 0 <= i < |others| && others[i].pid == rs[0].pid ==>
              ExcessOf(others[i], table, holders) == ExcessOf(rs[0], table, holders)
  {
    forall i | 0 <= i < |others| && others[i].pid == rs[0].pid
      ensures ExcessOf(others[i], table, holders) == ExcessOf(rs[0], table, holders) {
      assert others[i] in multiset(rs[1..]);
      var k :| 0 <= k < |rs[1..]| && rs[1..][k] == others[i];
      assert rs[k + 1] == others[i];
    }
  }

  /** What the holders' trees exceed their entries by is the same in every order of the entries if and only if it is
      the same for each of a holder's entries. */
  lemma OverOfOrderExactly(rs: seq<Reservation>, table: seq<Row>)
    ensures (forall rs': seq<Reservation> :: multiset(rs') == multiset(rs) ==>
               OverFrom(rs', table, HolderPids(rs', table), {}) == OverFrom(rs, table, HolderPids(rs, table), {}))
            <==> EqualExcess(rs, table, HolderPids(rs, table))
  {
    var holders := HolderPids(rs, table);
    if EqualExcess(rs, table, holders) {
      forall rs': seq<Reservation> | multiset(rs') == multiset(rs)
        ensures OverFrom(rs', table, HolderPids(rs', table), {}) == OverFrom(rs, table, holders, {}) {
        OrderOfReservations(rs, rs', table);
        OverInAnyOrder(rs, rs', table, holders, {});
      }
    } else {
      var i, j :| 0 <= i < j < |rs| && rs[i].pid == rs[j].pid
        && ExcessOf(rs[i], table, holders) != ExcessOf(rs[j], table, holders);
      var one, other := TwoOrdersDiffer(rs, table, i, j);
    }
  }

  lemma TwoOrdersDiffer(rs: seq<Reservation>, table: seq<Row>, i: nat, j: nat)
    returns (one: seq<Reservation>, other: seq<Reservation>)
    requires i < j < |rs| && rs[i].pid == rs[j].pid
    requires ExcessOf(rs[i], table, HolderPids(rs, table)) != ExcessOf(rs[j], table, HolderPids(rs, table))
    ensures multiset(one) == multiset(rs) == multiset(other)
    ensures OverFrom(one, table, HolderPids(one, table), {}) != OverFrom(other, table, HolderPids(other, table), {})
  {
    var others := TwoInFront(rs, i, j);
    one, other := [rs[i], rs[j]] + others, [rs[j], rs[i]] + others;
    OrderOfReservations(rs, one, table);
    OrderOfReservations(rs, other, table);
    OverWithTwoInFront(rs[i], rs[j], others, table, HolderPids(rs, table));
    OverWithTwoInFront(rs[j], rs[i], others, table, HolderPids(rs, table));
  }

  lemma OverWithTwoInFront(a: Reservation, b: Reservation, others: seq<Reservation>, table: seq<Row>, holders: set<int>)
    requires a.pid == b.pid && a.pid in holders
    ensures OverFrom([a, b] + others, table, holders, {})
            == ExcessOf(a, table, holders) + OverFrom(others, table, holders, {a.pid})
  {
    assert [a, b] + others == [a] + ([b] + others);
    OverOfFirst(a, [b] + others, table, holders, {});
    OverOfFirst(b, others, table, holders, SeenWith({}, a, holders));
    assert SeenWith({}, a, holders) == {a.pid} == SeenWith({a.pid}, b, holders);
  }

  /** No process that holds memory has a second entry. */
  ghost predicate OneEntryEach(rs: seq<Reservation>, holders: set<int>) {
    forall i, j :: 0 <= i < j < |rs| && rs[i].pid in holders ==> rs[i].pid != rs[j].pid
  }

  /** When no holder has two entries, the order does not matter. */
  lemma OverOfOrder(rs: seq<Reservation>, rs': seq<Reservation>, table: seq<Row>)
    requires multiset(rs) == multiset(rs') && OneEntryEach(rs, HolderPids(rs, table))
    ensures OverFrom(rs, table, HolderPids(rs, table), {}) == OverFrom(rs', table, HolderPids(rs', table), {})
  {
    OrderOfReservations(rs, rs', table);
    OverInAnyOrder(rs, rs', table, HolderPids(rs, table), {});
  }

  /** Of a holder's two entries the tree is set against the first alone, so that their order matters exactly when
      the tree is larger than one of them and they differ. */
  lemma TwoEntriesOfOne(a: Reservation, b: Reservation, table: seq<Row>)
    requires a.pid == b.pid && a.pid in Pids(table) && a.megabytes > 0.0
    ensures var holders := HolderPids([a, b], table);
            var tree := Resident(table, TreeOf(table, holders, a.pid));
            && HolderPids([b, a], table) == holders == {a.pid}
            && OverFrom([a, b], table, holders, {}) == Excess(tree, a.megabytes)
            && (OverFrom([a, b], table, holders, {}) == OverFrom([b, a], table, holders, {})
                <==> a.megabytes == b.megabytes || (tree <= a.megabytes && tree <= b.megabytes))
  {
    var holders := HolderPids([a, b], table);
    assert a in [a, b] && a in [b, a];
    SecondEntryIsSkipped(a, b, table, holders);
    SecondEntryIsSkipped(b, a, table, holders);
  }

  lemma SecondEntryIsSkipped(a: Reservation, b: Reservation, table: seq<Row>, holders: set<int>)
    requires a.pid == b.pid && a.pid in holders
    ensures OverFrom([a, b], table, holders, {}) == ExcessOf(a, table, holders)
  {
    assert [a, b][1..] == [b] && [b][1..] == [];
    assert OverFrom([b], table, holders, {} + {a.pid}) == OverFrom([], table, holders, {} + {a.pid});
  }
}
