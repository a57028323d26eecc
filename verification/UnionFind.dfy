/** The forest of `clusters`: parents in an array, found with path halving. A parent's index is never
    below its child's, since a group is always joined to the graphic read last. */
module UnionFind {

  predicate Forest(p: seq<nat>) {
    forall i :: 0 <= i < |p| ==> i <= p[i] < |p|
  }

  /** Only the first `last + 1` nodes have been joined. */
  predicate JoinedUpTo(p: seq<nat>, last: nat) {
    && Forest(p)
    && (forall i :: 0 <= i < |p| && i <= last ==> p[i] <= last)
    && (forall i :: 0 <= i < |p| && i > last ==> p[i] == i)
  }

  function Root(p: seq<nat>, i: nat): (root: nat)
    requires Forest(p) && i < |p|
    ensures i <= root < |p| && p[root] == root
    decreases |p| - i
  {
    if p[i] == i then i else Root(p, p[i])
  }

  lemma {:induction false} RootUpTo(p: seq<nat>, last: nat, i: nat)
    requires JoinedUpTo(p, last) && i < |p| && i <= last
    ensures Root(p, i) <= last
    decreases |p| - i
  {
    if p[i] != i {
      RootUpTo(p, last, p[i]);
    }
  }

  /** Halving a path changes no root. */
  lemma {:induction false} HalvingKeepsRoot(p: seq<nat>, i: nat, k: nat)
    requires Forest(p) && i < |p| && k < |p|
    ensures Forest(p[i := p[p[i]]])
    ensures Root(p[i := p[p[i]]], k) == Root(p, k)
    decreases |p| - k
  {
    var p' := p[i := p[p[i]]];
    if p[k] != k {
      HalvingKeepsRoot(p, i, p[k]);
      if k == i && p[p[i]] != p[i] {
        HalvingKeepsRoot(p, i, p[p[i]]);
      }
    }
  }

  /** Joining root `from` to root `to` moves exactly the nodes of `from`. */
  lemma {:induction false} JoiningMovesRoot(p: seq<nat>, from: nat, to: nat, k: nat)
    requires Forest(p) && from < to < |p| && p[from] == from && p[to] == to && k < |p|
    ensures Forest(p[from := to])
    ensures Root(p[from := to], k) == if Root(p, k) == from then to else Root(p, k)
    decreases |p| - k
  {
    if p[k] != k {
      JoiningMovesRoot(p, from, to, p[k]);
    }
  }

  /** Same roots everywhere. */
  ghost predicate SameRoots(p: seq<nat>, p': seq<nat>)
    requires Forest(p) && Forest(p')
  {
    |p| == |p'| && forall k :: 0 <= k < |p| ==> Root(p', k) == Root(p, k)
  }

  /** The root of `start`; the path to it is halved on the way, which no root notices. */
  method Find(parent: array<nat>, start: nat, ghost last: nat) returns (root: nat)
    requires JoinedUpTo(parent[..], last) && start < parent.Length
    modifies parent
    ensures JoinedUpTo(parent[..], last) && SameRoots(old(parent[..]), parent[..])
    ensures root == Root(parent[..], start)
  {
    var i := start;
    while parent[i] != i
      invariant JoinedUpTo(parent[..], last) && SameRoots(old(parent[..]), parent[..])
      invariant start <= i < parent.Length && Root(parent[..], i) == Root(parent[..], start)
      decreases parent.Length - i
    {
      ghost var p := parent[..];
      forall k | 0 <= k < |p| ensures Forest(p[i := p[p[i]]]) && Root(p[i := p[p[i]]], k) == Root(p, k) {
        HalvingKeepsRoot(p, i, k);
      }
      parent[i] := parent[parent[i]];
      assert parent[..] == p[i := p[p[i]]];
      i := parent[i];
    }
    root := i;
  }
}
