/**
 * Canonical (deduplicated) edges: an unordered pair {a, b} is keyed by the
 * smaller index first, so the two stored directions of an undirected edge and
 * any repeated insertion collapse to one key.
 */
module Edges {
  import opened Adjacency

  /** The key of the unordered pair {a, b}, smaller index first. */
  function Canon(a: nat, b: nat): (e: (nat, nat))
    ensures e.0 <= e.1
    ensures (e.0 == a && e.1 == b) || (e.0 == b && e.1 == a)
  {
    if a < b then (a, b) else (b, a)
  }

  /** Every key built from a stored entry `j in adj[i]`. */
  ghost function CanonicalEdges(adj: Adj): set<(nat, nat)> {
    set i, j | 0 <= i < |adj| && 0 <= j < |adj[i]| :: Canon(i, adj[i][j])
  }

  /** Every key built from a stored entry whose two ends both lie in `comp`. */
  ghost function ComponentEdges(adj: Adj, comp: seq<nat>): set<(nat, nat)> {
    set k, j | 0 <= k < |comp| && comp[k] < |adj| && 0 <= j < |adj[comp[k]]| && adj[comp[k]][j] in comp
      :: Canon(comp[k], adj[comp[k]][j])
  }

  /** The number of node pairs of a simple graph on `n` nodes. */
  function MaxEdgeCount(n: nat): nat {
    if n == 0 then 0 else n * (n - 1) / 2
  }

  /** Applies a sequence of `addEdge` calls to the lists. */
  function AddAll(adj: Adj, ins: seq<(nat, nat)>): (r: Adj)
    requires forall k :: 0 <= k < |ins| ==> ins[k].0 < |adj|
    ensures |r| == |adj|
    decreases |ins|
  {
    if ins == [] then adj
    else AddAll(AppendEdge(adj, ins[0].0, ins[0].1), ins[1..])
  }

  /** `addEdge(u, v)` adds exactly the key of {u, v} to the canonical edges. */
  lemma AppendEdgeKeys(adj: Adj, u: nat, v: nat)
    requires u < |adj|
    ensures CanonicalEdges(AppendEdge(adj, u, v)) == CanonicalEdges(adj) + {Canon(u, v)}
  {
    var r := AppendEdge(adj, u, v);
    forall e | e in CanonicalEdges(r) ensures e in CanonicalEdges(adj) + {Canon(u, v)} {
      var i, j :| 0 <= i < |r| && 0 <= j < |r[i]| && e == Canon(i, r[i][j]);
      if i == u && j == |adj[u]| {
        assert e == Canon(u, v);
      } else {
        assert r[i][j] == adj[i][j];
      }
    }
    forall e | e in CanonicalEdges(adj) + {Canon(u, v)} ensures e in CanonicalEdges(r) {
      if e == Canon(u, v) {
        assert r[u][|adj[u]|] == v;
      } else {
        var i, j :| 0 <= i < |adj| && 0 <= j < |adj[i]| && e == Canon(i, adj[i][j]);
        assert r[i][j] == adj[i][j];
      }
    }
  }

  /**
   * Inserting (u, v) and (v, u), in any order and any number of times, raises
   * the canonical edge count by exactly one over a graph lacking the pair {u, v},
   * and leaves it unchanged over a graph that already has it.
   */
  lemma {:induction false} RepeatedInsertion(adj: Adj, u: nat, v: nat, ins: seq<(nat, nat)>)
    requires u < |adj| && v < |adj|
    requires |ins| > 0
    requires forall k :: 0 <= k < |ins| ==> ins[k] == (u, v) || ins[k] == (v, u)
    ensures CanonicalEdges(AddAll(adj, ins)) == CanonicalEdges(adj) + {Canon(u, v)}
    ensures |CanonicalEdges(AddAll(adj, ins))|
            == |CanonicalEdges(adj)| + (if Canon(u, v) in CanonicalEdges(adj) then 0 else 1)
    decreases |ins|
  {
    var (a, b) := ins[0];
    var adj1 := AppendEdge(adj, a, b);
    AppendEdgeKeys(adj, a, b);
    assert Canon(a, b) == Canon(u, v);
    if |ins| > 1 {
      RepeatedInsertion(adj1, u, v, ins[1..]);
    }
  }

  /** All pairs (i, j) with i < j < n. */
  ghost function Pairs(n: nat): set<(nat, nat)> {
    set i: nat, j: nat | 0 <= i < j < n :: (i, j)
  }

  /** The pairs (i, m) with i < k. */
  ghost function Column(k: nat, m: nat): set<(nat, nat)> {
    set i: nat | 0 <= i < k :: (i, m)
  }

  lemma {:induction false} ColumnSize(k: nat, m: nat)
    ensures |Column(k, m)| == k
  {
    if k > 0 {
      ColumnSize(k - 1, m);
      assert Column(k, m) == Column(k - 1, m) + {(k - 1, m)};
    }
  }

  lemma {:induction false} PairsSize(n: nat)
    ensures |Pairs(n)| == MaxEdgeCount(n)
  {
    if n > 0 {
      PairsSize(n - 1);
      ColumnSize(n - 1, n - 1);
      assert Pairs(n) == Pairs(n - 1) + Column(n - 1, n - 1);
      assert Pairs(n - 1) !! Column(n - 1, n - 1);
      assert (n - 1) * (n - 2) / 2 + (n - 1) == n * (n - 1) / 2 by {
        assert n * (n - 1) == (n - 1) * (n - 2) + 2 * (n - 1);
      }
    }
  }

  lemma {:induction false} SubsetSize<T>(a: set<T>, b: set<T>)
    requires a <= b
    ensures |a| <= |b|
    decreases |a|
  {
    if a != {} {
      var x :| x in a;
      SubsetSize(a - {x}, b - {x});
    }
  }

  /**
   * Without self-loops, the canonical edge count never exceeds
   * `maxEdgeCount`, n(n-1)/2.
   */
  lemma EdgeCountAtMostMax(adj: Adj)
    requires WellFormed(adj) && NoSelfLoops(adj)
    ensures |CanonicalEdges(adj)| <= MaxEdgeCount(|adj|)
  {
    forall e | e in CanonicalEdges(adj) ensures e in Pairs(|adj|) {
      var i, j :| 0 <= i < |adj| && 0 <= j < |adj[i]| && e == Canon(i, adj[i][j]);
      assert adj[i][j] != i;
    }
    SubsetSize(CanonicalEdges(adj), Pairs(|adj|));
    PairsSize(|adj|);
  }

  /**
   * The keys a row-by-row scan has produced once it has passed every list
   * before `i` and the first `k` entries of list `i`.
   */
  ghost function ScannedEdges(adj: Adj, i: nat, k: nat): set<(nat, nat)> {
    set a, j | 0 <= a < |adj| && 0 <= j < |adj[a]| && (a < i || (a == i && j < k)) :: Canon(a, adj[a][j])
  }

  lemma ScanStart(adj: Adj)
    ensures ScannedEdges(adj, 0, 0) == {}
  {
  }

  lemma ScanEntry(adj: Adj, i: nat, k: nat)
    requires i < |adj| && k < |adj[i]|
    ensures ScannedEdges(adj, i, k + 1) == ScannedEdges(adj, i, k) + {Canon(i, adj[i][k])}
  {
  }

  lemma ScanRow(adj: Adj, i: nat)
    requires i < |adj|
    ensures ScannedEdges(adj, i + 1, 0) == ScannedEdges(adj, i, |adj[i]|)
  {
  }

  lemma ScanEnd(adj: Adj)
    ensures ScannedEdges(adj, |adj|, 0) == CanonicalEdges(adj)
  {
  }

  /**
   * The keys a scan of the member lists of `comp` has produced once it has
   * passed the lists of the members before position `i` and the first `k`
   * entries of the list of `comp[i]`.
   */
  ghost function ScannedComponentEdges(adj: Adj, comp: seq<nat>, i: nat, k: nat): set<(nat, nat)> {
    set a, j | 0 <= a < |comp| && comp[a] < |adj| && 0 <= j < |adj[comp[a]]| && adj[comp[a]][j] in comp
                 && (a < i || (a == i && j < k))
      :: Canon(comp[a], adj[comp[a]][j])
  }

  lemma ComponentScanStart(adj: Adj, comp: seq<nat>)
    ensures ScannedComponentEdges(adj, comp, 0, 0) == {}
  {
  }

  lemma ComponentScanEntry(adj: Adj, comp: seq<nat>, i: nat, k: nat)
    requires i < |comp| && comp[i] < |adj| && k < |adj[comp[i]]|
    ensures ScannedComponentEdges(adj, comp, i, k + 1)
         == ScannedComponentEdges(adj, comp, i, k)
            + (if adj[comp[i]][k] in comp then {Canon(comp[i], adj[comp[i]][k])} else {})
  {
  }

  lemma ComponentScanRow(adj: Adj, comp: seq<nat>, i: nat)
    requires i < |comp| && comp[i] < |adj|
    ensures ScannedComponentEdges(adj, comp, i + 1, 0) == ScannedComponentEdges(adj, comp, i, |adj[comp[i]]|)
  {
  }

  lemma ComponentScanEnd(adj: Adj, comp: seq<nat>)
    ensures ScannedComponentEdges(adj, comp, |comp|, 0) == ComponentEdges(adj, comp)
  {
  }
}
