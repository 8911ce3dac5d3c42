/**
 * The adjacency-list representation shared by both engines: node `i` owns the
 * ordered list `adj[i]` of its neighbours, and an undirected edge is stored as
 * two directed entries by the caller's convention.
 */
module Adjacency {

  type Adj = seq<seq<nat>>

  /** The node indices 0 .. n-1. */
  function Nodes(n: nat): (s: set<nat>)
    ensures forall x: int :: x in s <==> 0 <= x < n
    ensures |s| == n
  {
    if n == 0 then {} else Nodes(n - 1) + {n - 1}
  }

  /** Every stored neighbour is a node index of the graph. */
  ghost predicate WellFormed(adj: Adj) {
    forall i, j :: 0 <= i < |adj| && 0 <= j < |adj[i]| ==> adj[i][j] < |adj|
  }

  /** Every directed entry has its reverse entry: the undirected convention. */
  ghost predicate Symmetric(adj: Adj) {
    forall i, j :: 0 <= i < |adj| && j in adj[i] ==> j < |adj| && i in adj[j]
  }

  /** No node lists itself as a neighbour. */
  ghost predicate NoSelfLoops(adj: Adj) {
    forall i :: 0 <= i < |adj| ==> i !in adj[i]
  }

  /** No neighbour list holds the same node twice. */
  ghost predicate NoDuplicates(adj: Adj) {
    forall i :: 0 <= i < |adj| ==> Distinct(adj[i])
  }

  ghost predicate Distinct(s: seq<nat>) {
    forall i, j :: 0 <= i < j < |s| ==> s[i] != s[j]
  }

  /** The effect of `addEdge(u, v)` on the lists: `v` is appended to `adj[u]`. */
  function AppendEdge(adj: Adj, u: nat, v: nat): (r: Adj)
    requires u < |adj|
    ensures |r| == |adj|
    ensures r[u] == adj[u] + [v]
    ensures forall i :: 0 <= i < |adj| && i != u ==> r[i] == adj[i]
  {
    adj[u := adj[u] + [v]]
  }

  /** `w` is a walk: its nodes exist and each one lists the next as a neighbour. */
  ghost predicate IsWalk(adj: Adj, w: seq<nat>) {
    && (forall i :: 0 <= i < |w| ==> w[i] < |adj|)
    && (forall i, j :: 0 <= i < |w| && j == i + 1 < |w| ==> w[j] in adj[w[i]])
  }

  /**
   * `c` is a simple cycle: at least three pairwise distinct nodes forming a walk,
   * and the last node lists the first as a neighbour.
   */
  ghost predicate IsSimpleCycle(adj: Adj, c: seq<nat>) {
    && |c| >= 3
    && Distinct(c)
    && IsWalk(adj, c)
    && c[0] in adj[c[|c| - 1]]
  }

  /** `[...s].reverse()`, position by position. */
  function Reverse(s: seq<nat>): (r: seq<nat>)
    ensures |r| == |s|
    ensures forall i :: 0 <= i < |s| ==> r[i] == s[|s| - 1 - i]
  {
    seq(|s|, i requires 0 <= i < |s| => s[|s| - 1 - i])
  }

  /** Reversing moves an element appended at the end to the front, and keeps the rest reversed. */
  lemma ReverseSnoc(s: seq<nat>, x: nat)
    ensures Reverse(s + [x]) == [x] + Reverse(s)
  {
    var a := Reverse(s + [x]);
    var b := [x] + Reverse(s);
    forall k | 0 <= k < |a| ensures a[k] == b[k] {
      if k > 0 {
        assert b[k] == Reverse(s)[k - 1];
      }
    }
  }

  /** Reversing keeps every element with its multiplicity. */
  lemma {:induction false} ReverseMultiset(s: seq<nat>)
    ensures multiset(Reverse(s)) == multiset(s)
    decreases |s|
  {
    if s != [] {
      var init := s[..|s| - 1];
      ReverseMultiset(init);
      assert s == init + [s[|s| - 1]];
      ReverseSnoc(init, s[|s| - 1]);
    }
  }

  lemma AppendEdgeWellFormed(adj: Adj, u: nat, v: nat)
    requires WellFormed(adj) && u < |adj| && v < |adj|
    ensures WellFormed(AppendEdge(adj, u, v))
  {
    var r := AppendEdge(adj, u, v);
    forall i, j | 0 <= i < |r| && 0 <= j < |r[i]| ensures r[i][j] < |r| {
      if i == u && j == |adj[u]| {
      } else {
        assert r[i][j] == adj[i][j];
      }
    }
  }
}
