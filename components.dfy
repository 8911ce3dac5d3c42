/**
 * Connected components as the engine finds them: a depth-first search from
 * every still unvisited node, in ascending index order, that appends each node
 * to the current component when it is first visited. The functions here are the
 * specification that the imperative search in module Engine is proved against.
 */
module Components {
  import opened Adjacency

  /** The nodes a traversal adds after the prefix `comp` it started from. */
  function Added(comp: seq<nat>, r: (set<nat>, seq<nat>)): seq<nat>
    requires |comp| <= |r.1|
  {
    r.1[|comp|..]
  }

  /**
   * What one traversal guarantees: the visited set only grows; the component
   * keeps its prefix and gains exactly the newly visited nodes, each once; and
   * every neighbour of a newly visited node is visited afterwards.
   */
  ghost predicate Traversed(adj: Adj, visited: set<nat>, comp: seq<nat>, r: (set<nat>, seq<nat>)) {
    && visited <= r.0
    && |comp| <= |r.1| && r.1[..|comp|] == comp
    && Distinct(Added(comp, r))
    && (forall x :: x in Added(comp, r) <==> x in r.0 && x !in visited)
    && (forall x :: x in r.0 && x !in visited ==> x < |adj|)
    && |r.0| == |visited| + |Added(comp, r)|
    && (forall x, y :: x in Added(comp, r) && y in adj[x] ==> y in r.0)
  }

  /** `dfs(v, visited, component)`: visit `v`, then each neighbour not yet visited. */
  function Visit(adj: Adj, v: nat, visited: set<nat>, comp: seq<nat>): (r: (set<nat>, seq<nat>))
    requires WellFormed(adj) && v < |adj| && v !in visited
    ensures visited + {v} <= r.0
    decreases Nodes(|adj|) - visited, 0
  {
    VisitList(adj, adj[v], visited + {v}, comp + [v])
  }

  /** The loop over one neighbour list inside `dfs`. */
  function VisitList(adj: Adj, ns: seq<nat>, visited: set<nat>, comp: seq<nat>): (r: (set<nat>, seq<nat>))
    requires WellFormed(adj) && forall k :: 0 <= k < |ns| ==> ns[k] < |adj|
    ensures visited <= r.0
    decreases Nodes(|adj|) - visited, 1, |ns|
  {
    if ns == [] then (visited, comp)
    else
      var r1 := if ns[0] in visited then (visited, comp) else Visit(adj, ns[0], visited, comp);
      VisitList(adj, ns[1..], r1.0, r1.1)
  }

  /**
   * A traversal from `v` adds `v` first, then exactly the nodes it newly
   * reaches, each once, and leaves no neighbour of an added node unvisited.
   */
  lemma {:induction false} VisitTraversed(adj: Adj, v: nat, visited: set<nat>, comp: seq<nat>)
    requires WellFormed(adj) && v < |adj| && v !in visited
    ensures Traversed(adj, visited, comp, Visit(adj, v, visited, comp))
    ensures |Visit(adj, v, visited, comp).1| > |comp| && Visit(adj, v, visited, comp).1[|comp|] == v
    decreases Nodes(|adj|) - visited, 0
  {
    var r := Visit(adj, v, visited, comp);
    VisitListTraversed(adj, adj[v], visited + {v}, comp + [v]);
    TraversedFromRoot(adj, v, visited, comp, r);
  }

  /** The neighbour loop is a traversal that ends with every listed neighbour visited. */
  lemma {:induction false} VisitListTraversed(adj: Adj, ns: seq<nat>, visited: set<nat>, comp: seq<nat>)
    requires WellFormed(adj) && forall k :: 0 <= k < |ns| ==> ns[k] < |adj|
    ensures Traversed(adj, visited, comp, VisitList(adj, ns, visited, comp))
    ensures forall y :: y in ns ==> y in VisitList(adj, ns, visited, comp).0
    decreases Nodes(|adj|) - visited, 1, |ns|
  {
    if ns == [] {
      assert Added(comp, (visited, comp)) == [];
    } else {
      var r1 := if ns[0] in visited then (visited, comp) else Visit(adj, ns[0], visited, comp);
      if ns[0] in visited {
        assert Added(comp, r1) == [];
      } else {
        VisitTraversed(adj, ns[0], visited, comp);
      }
      var r := VisitList(adj, ns[1..], r1.0, r1.1);
      VisitListTraversed(adj, ns[1..], r1.0, r1.1);
      TraversedCompose(adj, visited, comp, r1, r);
      assert forall y :: y in ns ==> y == ns[0] || y in ns[1..];
    }
  }

  /** One iteration of the neighbour loop in `dfs`: skip a visited neighbour, else visit it. */
  lemma VisitListStep(adj: Adj, v: nat, k: nat, visited: set<nat>, comp: seq<nat>, r1: (set<nat>, seq<nat>))
    requires WellFormed(adj) && v < |adj| && k < |adj[v]|
    requires adj[v][k] in visited ==> r1 == (visited, comp)
    requires adj[v][k] !in visited ==> r1 == Visit(adj, adj[v][k], visited, comp)
    ensures VisitList(adj, adj[v][k + 1..], r1.0, r1.1) == VisitList(adj, adj[v][k..], visited, comp)
  {
    assert adj[v][k..][1..] == adj[v][k + 1..];
  }

  lemma DistinctConcat(a: seq<nat>, b: seq<nat>)
    requires Distinct(a) && Distinct(b)
    requires forall x :: x in a ==> x !in b
    ensures Distinct(a + b)
  {
    forall i, j | 0 <= i < j < |a + b| ensures (a + b)[i] != (a + b)[j] {
      if i < |a| && j >= |a| {
        assert (a + b)[i] in a && (a + b)[j] in b;
      }
    }
  }

  /** Two traversals in a row make one traversal. */
  lemma TraversedCompose(adj: Adj, visited: set<nat>, comp: seq<nat>, r1: (set<nat>, seq<nat>), r: (set<nat>, seq<nat>))
    requires Traversed(adj, visited, comp, r1)
    requires Traversed(adj, r1.0, r1.1, r)
    ensures Traversed(adj, visited, comp, r)
  {
    assert Added(comp, r) == Added(comp, r1) + Added(r1.1, r);
    DistinctConcat(Added(comp, r1), Added(r1.1, r));
  }

  /** Marking `v` and traversing its neighbour list is one traversal that starts with `v`. */
  lemma TraversedFromRoot(adj: Adj, v: nat, visited: set<nat>, comp: seq<nat>, r: (set<nat>, seq<nat>))
    requires v < |adj| && v !in visited
    requires Traversed(adj, visited + {v}, comp + [v], r)
    requires forall y :: y in adj[v] ==> y in r.0
    ensures Traversed(adj, visited, comp, r)
  {
    assert Added(comp, r) == [v] + Added(comp + [v], r);
    DistinctConcat([v], Added(comp + [v], r));
  }

  /**
   * The order in which a search reaches the nodes of `c` from position `lo`
   * on: each node after the one at `lo` is a neighbour of a node placed before
   * it, so it is reached by a walk from `c[lo]`.
   */
  ghost predicate Linked(adj: Adj, c: seq<nat>, lo: nat) {
    forall i :: lo < i < |c| ==> exists j :: lo <= j < i && c[j] < |adj| && c[i] in adj[c[j]]
  }

  /** `y` is a neighbour of a node of `c` from position `lo` on. */
  ghost predicate ListedFrom(adj: Adj, c: seq<nat>, lo: nat, y: nat) {
    exists j :: lo <= j < |c| && c[j] < |adj| && y in adj[c[j]]
  }

  /** Extending `c` at the end keeps it linked and keeps every node listed. */
  lemma LinkedPrefix(adj: Adj, c: seq<nat>, c': seq<nat>, lo: nat, ys: seq<nat>)
    requires |c| <= |c'| && c'[..|c|] == c
    requires forall y :: y in ys ==> ListedFrom(adj, c, lo, y)
    ensures forall y :: y in ys ==> ListedFrom(adj, c', lo, y)
  {
    forall y | y in ys ensures ListedFrom(adj, c', lo, y) {
      var j :| lo <= j < |c| && c[j] < |adj| && y in adj[c[j]];
      assert c'[j] == c[j];
    }
  }

  /**
   * A search from `v`, which a node of the component from position `lo` on
   * lists (unless `v` is the first node), keeps the component linked.
   */
  lemma {:induction false} VisitLinked(adj: Adj, v: nat, visited: set<nat>, comp: seq<nat>, lo: nat)
    requires WellFormed(adj) && v < |adj| && v !in visited
    requires lo <= |comp| && Linked(adj, comp, lo)
    requires lo < |comp| ==> ListedFrom(adj, comp, lo, v)
    ensures Linked(adj, Visit(adj, v, visited, comp).1, lo)
    decreases Nodes(|adj|) - visited, 0
  {
    var c1 := comp + [v];
    forall i | lo < i < |c1| ensures exists j :: lo <= j < i && c1[j] < |adj| && c1[i] in adj[c1[j]] {
      if i < |comp| {
        var j :| lo <= j < i && comp[j] < |adj| && comp[i] in adj[comp[j]];
        assert c1[j] == comp[j];
      } else {
        var j :| lo <= j < |comp| && comp[j] < |adj| && v in adj[comp[j]];
        assert c1[j] == comp[j];
      }
    }
    forall y | y in adj[v] ensures ListedFrom(adj, c1, lo, y) {
      assert c1[|comp|] == v;
    }
    VisitListLinked(adj, adj[v], visited + {v}, c1, lo);
  }

  /** The neighbour loop keeps the component linked when every listed node is a neighbour of one in it. */
  lemma {:induction false} VisitListLinked(adj: Adj, ns: seq<nat>, visited: set<nat>, comp: seq<nat>, lo: nat)
    requires WellFormed(adj) && forall k :: 0 <= k < |ns| ==> ns[k] < |adj|
    requires lo <= |comp| && Linked(adj, comp, lo)
    requires forall y :: y in ns ==> ListedFrom(adj, comp, lo, y)
    ensures Linked(adj, VisitList(adj, ns, visited, comp).1, lo)
    decreases Nodes(|adj|) - visited, 1, |ns|
  {
    if ns != [] {
      var r1 := if ns[0] in visited then (visited, comp) else Visit(adj, ns[0], visited, comp);
      if ns[0] !in visited {
        assert ns[0] in ns;
        VisitLinked(adj, ns[0], visited, comp, lo);
        VisitTraversed(adj, ns[0], visited, comp);
        LinkedPrefix(adj, comp, r1.1, lo, ns[1..]);
      } else {
        assert forall y :: y in ns[1..] ==> y in ns;
      }
      VisitListLinked(adj, ns[1..], r1.0, r1.1, lo);
    }
  }

  /** The outer loop of `analyzeComponents`: a search from every unvisited node, in ascending order. */
  function ComponentsFrom(adj: Adj, i: nat, visited: set<nat>, comps: seq<seq<nat>>): seq<seq<nat>>
    requires WellFormed(adj) && i <= |adj|
    decreases |adj| - i
  {
    if i == |adj| then comps
    else if i in visited then ComponentsFrom(adj, i + 1, visited, comps)
    else
      var r := Visit(adj, i, visited, []);
      ComponentsFrom(adj, i + 1, r.0, comps + [r.1])
  }

  /** The components of the graph, in discovery order. */
  function ComponentsOf(adj: Adj): seq<seq<nat>>
    requires WellFormed(adj)
  {
    ComponentsFrom(adj, 0, {}, [])
  }

  /** The total number of nodes listed in `comps`. */
  function SumSizes(comps: seq<seq<nat>>): nat {
    if comps == [] then 0 else SumSizes(comps[..|comps| - 1]) + |comps[|comps| - 1]|
  }

  ghost predicate InSome(comps: seq<seq<nat>>, x: nat) {
    exists k :: 0 <= k < |comps| && x in comps[k]
  }

  ghost predicate NonEmptyDistinct(comps: seq<seq<nat>>) {
    forall k :: 0 <= k < |comps| ==> |comps[k]| > 0 && Distinct(comps[k])
  }

  ghost predicate Disjoint(comps: seq<seq<nat>>) {
    forall k1, k2, x :: 0 <= k1 < k2 < |comps| && x in comps[k1] ==> x !in comps[k2]
  }

  /** Each component starts with its smallest node, and the starts ascend. */
  ghost predicate StartsAtMin(comps: seq<seq<nat>>)
    requires NonEmptyDistinct(comps)
  {
    && (forall k, j :: 0 <= k < |comps| && 0 <= j < |comps[k]| ==> comps[k][0] <= comps[k][j])
    && (forall k1, k2 :: 0 <= k1 < k2 < |comps| ==> comps[k1][0] < comps[k2][0])
  }

  /**
   * `comps` partitions the nodes 0 .. n-1: every component is non-empty and
   * repeats no node, every node lies in exactly one component, and the sizes add
   * up to n. Each component starts with its smallest node, and the starts ascend.
   */
  ghost predicate Partition(n: nat, comps: seq<seq<nat>>) {
    && NonEmptyDistinct(comps)
    && (forall k, x :: 0 <= k < |comps| && x in comps[k] ==> x < n)
    && (forall x :: x in Nodes(n) ==> InSome(comps, x))
    && Disjoint(comps)
    && SumSizes(comps) == n
    && StartsAtMin(comps)
  }

  /** With symmetric lists, every neighbour of a member lies in the member's own component. */
  ghost predicate ClosedUnderAdjacency(adj: Adj, comps: seq<seq<nat>>) {
    forall k, x, y :: 0 <= k < |comps| && x in comps[k] && x < |adj| && y in adj[x] ==> y in comps[k]
  }

  /** Every neighbour of a node in `s` is in `s`. */
  ghost predicate ClosedSet(adj: Adj, s: set<nat>) {
    forall x, y :: x in s && x < |adj| && y in adj[x] ==> y in s
  }

  /** What holds after the outer loop has dealt with the nodes below `i`. */
  ghost predicate SoFar(adj: Adj, i: nat, visited: set<nat>, comps: seq<seq<nat>>) {
    && Nodes(i) <= visited
    && (forall k, x :: 0 <= k < |comps| && x in comps[k] ==> x < |adj|)
    && (forall x :: x in visited <==> InSome(comps, x))
    && NonEmptyDistinct(comps)
    && Disjoint(comps)
    && SumSizes(comps) == |visited|
    && StartsAtMin(comps)
    && (forall k :: 0 <= k < |comps| ==> comps[k][0] < i)
    && ClosedSet(adj, visited)
    && (Symmetric(adj) ==> ClosedUnderAdjacency(adj, comps))
  }

  lemma MembershipStep(visited: set<nat>, comps: seq<seq<nat>>, r: (set<nat>, seq<nat>))
    requires forall x :: x in visited <==> InSome(comps, x)
    requires forall x :: x in r.1 <==> x in r.0 && x !in visited
    requires visited <= r.0
    ensures forall x :: x in r.0 <==> InSome(comps + [r.1], x)
  {
    var cs := comps + [r.1];
    forall x | x in r.0 ensures InSome(cs, x) {
      if x in visited {
        var k :| 0 <= k < |comps| && x in comps[k];
        assert cs[k] == comps[k];
      } else {
        assert cs[|comps|] == r.1;
      }
    }
    forall x | InSome(cs, x) ensures x in r.0 {
      var k :| 0 <= k < |cs| && x in cs[k];
      if k < |comps| { assert cs[k] == comps[k]; assert InSome(comps, x); }
    }
  }

  lemma DisjointStep(visited: set<nat>, comps: seq<seq<nat>>, c: seq<nat>)
    requires forall x :: x in visited <==> InSome(comps, x)
    requires Disjoint(comps)
    requires forall x :: x in c ==> x !in visited
    ensures Disjoint(comps + [c])
  {
    var cs := comps + [c];
    forall k1, k2, x | 0 <= k1 < k2 < |cs| && x in cs[k1] ensures x !in cs[k2] {
      if k2 == |comps| {
        assert cs[k1] == comps[k1];
        assert InSome(comps, x);
      } else {
        assert cs[k1] == comps[k1] && cs[k2] == comps[k2];
      }
    }
  }

  lemma StartsStep(i: nat, visited: set<nat>, comps: seq<seq<nat>>, c: seq<nat>)
    requires NonEmptyDistinct(comps) && StartsAtMin(comps)
    requires forall k :: 0 <= k < |comps| ==> comps[k][0] < i
    requires |c| > 0 && c[0] == i && Distinct(c)
    requires Nodes(i) <= visited
    requires forall x :: x in c ==> x !in visited
    ensures NonEmptyDistinct(comps + [c]) && StartsAtMin(comps + [c])
    ensures forall k :: 0 <= k < |comps + [c]| ==> (comps + [c])[k][0] < i + 1
  {
    var cs := comps + [c];
    assert forall k :: 0 <= k < |comps| ==> cs[k] == comps[k];
    assert cs[|comps|] == c;
    forall k, j | 0 <= k < |cs| && 0 <= j < |cs[k]| ensures cs[k][0] <= cs[k][j] {
      if k == |comps| {
        assert c[j] in c;
        assert c[j] !in Nodes(i);
      }
    }
  }

  lemma BoundStep(adj: Adj, visited: set<nat>, comps: seq<seq<nat>>, r: (set<nat>, seq<nat>))
    requires forall k, x :: 0 <= k < |comps| && x in comps[k] ==> x < |adj|
    requires Traversed(adj, visited, [], r)
    ensures forall k, x :: 0 <= k < |comps + [r.1]| && x in (comps + [r.1])[k] ==> x < |adj|
  {
    assert Added([], r) == r.1;
    assert forall k :: 0 <= k < |comps| ==> (comps + [r.1])[k] == comps[k];
  }

  lemma SumStep(comps: seq<seq<nat>>, c: seq<nat>)
    ensures SumSizes(comps + [c]) == SumSizes(comps) + |c|
  {
    assert (comps + [c])[..|comps|] == comps;
  }

  lemma ClosureStep(adj: Adj, visited: set<nat>, comps: seq<seq<nat>>, r: (set<nat>, seq<nat>))
    requires Symmetric(adj) && ClosedSet(adj, visited) && ClosedUnderAdjacency(adj, comps)
    requires Traversed(adj, visited, [], r)
    ensures ClosedUnderAdjacency(adj, comps + [r.1])
  {
    var cs := comps + [r.1];
    assert Added([], r) == r.1;
    forall k, x, y | 0 <= k < |cs| && x in cs[k] && x < |adj| && y in adj[x] ensures y in cs[k] {
      if k == |comps| {
        assert x in Added([], r) && y in r.0 && x !in visited;
        assert x in adj[y] ==> y !in visited;
        assert x in adj[y];
      } else {
        assert cs[k] == comps[k];
      }
    }
  }

  lemma ClosedSetStep(adj: Adj, visited: set<nat>, r: (set<nat>, seq<nat>))
    requires ClosedSet(adj, visited)
    requires Traversed(adj, visited, [], r)
    ensures ClosedSet(adj, r.0)
  {
    assert Added([], r) == r.1;
    forall x, y | x in r.0 && x < |adj| && y in adj[x] ensures y in r.0 {
      if x !in visited {
        assert x in Added([], r);
      }
    }
  }

  lemma SoFarStep(adj: Adj, i: nat, visited: set<nat>, comps: seq<seq<nat>>)
    requires WellFormed(adj) && i < |adj| && i !in visited
    requires SoFar(adj, i, visited, comps)
    ensures SoFar(adj, i + 1, Visit(adj, i, visited, []).0, comps + [Visit(adj, i, visited, []).1])
  {
    var r := Visit(adj, i, visited, []);
    VisitTraversed(adj, i, visited, []);
    SoFarGrow(adj, i, visited, comps, r);
  }

  /** One more component: a traversal from the smallest node not yet visited. */
  lemma SoFarGrow(adj: Adj, i: nat, visited: set<nat>, comps: seq<seq<nat>>, r: (set<nat>, seq<nat>))
    requires WellFormed(adj) && i < |adj| && i !in visited
    requires SoFar(adj, i, visited, comps)
    requires Traversed(adj, visited, [], r) && |r.1| > 0 && r.1[0] == i
    ensures SoFar(adj, i + 1, r.0, comps + [r.1])
  {
    GrowMembers(adj, visited, comps, r);
    GrowShape(adj, i, visited, comps, r);
  }

  /** The new component's nodes are exactly the newly visited ones, all in range. */
  lemma GrowMembers(adj: Adj, visited: set<nat>, comps: seq<seq<nat>>, r: (set<nat>, seq<nat>))
    requires forall k, x :: 0 <= k < |comps| && x in comps[k] ==> x < |adj|
    requires forall x :: x in visited <==> InSome(comps, x)
    requires Disjoint(comps) && SumSizes(comps) == |visited|
    requires Traversed(adj, visited, [], r)
    ensures forall k, x :: 0 <= k < |comps + [r.1]| && x in (comps + [r.1])[k] ==> x < |adj|
    ensures forall x :: x in r.0 <==> InSome(comps + [r.1], x)
    ensures Disjoint(comps + [r.1])
    ensures SumSizes(comps + [r.1]) == |r.0|
  {
    assert Added([], r) == r.1;
    MembershipStep(visited, comps, r);
    DisjointStep(visited, comps, r.1);
    BoundStep(adj, visited, comps, r);
    SumStep(comps, r.1);
  }

  /** The new component starts at `i`, its smallest node, and stays closed. */
  lemma GrowShape(adj: Adj, i: nat, visited: set<nat>, comps: seq<seq<nat>>, r: (set<nat>, seq<nat>))
    requires WellFormed(adj) && i < |adj| && i !in visited
    requires Nodes(i) <= visited
    requires forall x :: x in visited <==> InSome(comps, x)
    requires NonEmptyDistinct(comps) && StartsAtMin(comps)
    requires forall k :: 0 <= k < |comps| ==> comps[k][0] < i
    requires ClosedSet(adj, visited)
    requires Symmetric(adj) ==> ClosedUnderAdjacency(adj, comps)
    requires Traversed(adj, visited, [], r) && |r.1| > 0 && r.1[0] == i
    ensures Nodes(i + 1) <= r.0
    ensures NonEmptyDistinct(comps + [r.1]) && StartsAtMin(comps + [r.1])
    ensures forall k :: 0 <= k < |comps + [r.1]| ==> (comps + [r.1])[k][0] < i + 1
    ensures ClosedSet(adj, r.0)
    ensures Symmetric(adj) ==> ClosedUnderAdjacency(adj, comps + [r.1])
  {
    assert Added([], r) == r.1;
    StartsStep(i, visited, comps, r.1);
    ClosedSetStep(adj, visited, r);
    if Symmetric(adj) {
      ClosureStep(adj, visited, comps, r);
    }
    assert Nodes(i + 1) == Nodes(i) + {i};
    assert i in r.1;
    assert forall k :: 0 <= k < |comps| ==> (comps + [r.1])[k] == comps[k];
  }

  lemma SoFarSkip(adj: Adj, i: nat, visited: set<nat>, comps: seq<seq<nat>>)
    requires i in visited
    requires SoFar(adj, i, visited, comps)
    ensures SoFar(adj, i + 1, visited, comps)
  {
    assert Nodes(i + 1) == Nodes(i) + {i};
  }

  lemma SoFarFinal(adj: Adj, visited: set<nat>, comps: seq<seq<nat>>)
    requires SoFar(adj, |adj|, visited, comps)
    ensures Partition(|adj|, comps)
  {
    forall x | x in visited ensures x < |adj| {
      var k :| 0 <= k < |comps| && x in comps[k];
    }
    assert visited == Nodes(|adj|);
    forall x | x in Nodes(|adj|) ensures InSome(comps, x) {
      assert x in visited;
    }
    forall k, x | 0 <= k < |comps| && x in comps[k] ensures x < |adj| {
      assert InSome(comps, x);
    }
  }

  lemma {:induction false} ComponentsFromPartition(adj: Adj, i: nat, visited: set<nat>, comps: seq<seq<nat>>)
    requires WellFormed(adj) && i <= |adj|
    requires SoFar(adj, i, visited, comps)
    ensures Partition(|adj|, ComponentsFrom(adj, i, visited, comps))
    decreases |adj| - i
  {
    if i == |adj| {
      SoFarFinal(adj, visited, comps);
    } else if i in visited {
      SoFarSkip(adj, i, visited, comps);
      ComponentsFromPartition(adj, i + 1, visited, comps);
    } else {
      var r := Visit(adj, i, visited, []);
      SoFarStep(adj, i, visited, comps);
      ComponentsFromPartition(adj, i + 1, r.0, comps + [r.1]);
    }
  }

  lemma {:induction false} ComponentsFromClosed(adj: Adj, i: nat, visited: set<nat>, comps: seq<seq<nat>>)
    requires WellFormed(adj) && i <= |adj| && Symmetric(adj)
    requires SoFar(adj, i, visited, comps)
    ensures ClosedUnderAdjacency(adj, ComponentsFrom(adj, i, visited, comps))
    decreases |adj| - i
  {
    if i == |adj| {
    } else if i in visited {
      SoFarSkip(adj, i, visited, comps);
      ComponentsFromClosed(adj, i + 1, visited, comps);
    } else {
      var r := Visit(adj, i, visited, []);
      SoFarStep(adj, i, visited, comps);
      ComponentsFromClosed(adj, i + 1, r.0, comps + [r.1]);
    }
  }

  /**
   * `analyzeComponents` partitions 0 .. n-1 into components; when every
   * directed entry has its reverse, no edge leaves a component.
   */
  lemma ComponentsArePartition(adj: Adj)
    requires WellFormed(adj)
    ensures Partition(|adj|, ComponentsOf(adj))
    ensures Symmetric(adj) ==> ClosedUnderAdjacency(adj, ComponentsOf(adj))
  {
    ComponentsFromPartition(adj, 0, {}, []);
    if Symmetric(adj) {
      ComponentsFromClosed(adj, 0, {}, []);
    }
  }

  lemma {:induction false} ComponentsFromLinked(adj: Adj, i: nat, visited: set<nat>, comps: seq<seq<nat>>)
    requires WellFormed(adj) && i <= |adj|
    requires forall k :: 0 <= k < |comps| ==> Linked(adj, comps[k], 0)
    ensures forall k :: 0 <= k < |ComponentsFrom(adj, i, visited, comps)| ==>
              Linked(adj, ComponentsFrom(adj, i, visited, comps)[k], 0)
    decreases |adj| - i
  {
    if i < |adj| {
      if i in visited {
        ComponentsFromLinked(adj, i + 1, visited, comps);
      } else {
        var r := Visit(adj, i, visited, []);
        VisitLinked(adj, i, visited, [], 0);
        var comps' := comps + [r.1];
        assert forall k :: 0 <= k < |comps'| ==> comps'[k] == if k < |comps| then comps[k] else r.1;
        ComponentsFromLinked(adj, i + 1, r.0, comps');
      }
    }
  }

  /**
   * Each component is connected: its nodes come in an order in which every
   * node after the first is a neighbour of an earlier one.
   */
  lemma ComponentsConnected(adj: Adj)
    requires WellFormed(adj)
    ensures forall k :: 0 <= k < |ComponentsOf(adj)| ==> Linked(adj, ComponentsOf(adj)[k], 0)
  {
    ComponentsFromLinked(adj, 0, {}, []);
  }

  /** In a linked sequence, a walk inside it leads from the first node to the node at `i`. */
  lemma {:induction false} LinkedWalk(adj: Adj, c: seq<nat>, i: nat) returns (w: seq<nat>)
    requires Linked(adj, c, 0) && i < |c| && forall x :: x in c ==> x < |adj|
    ensures IsWalk(adj, w) && w != [] && w[0] == c[0] && w[|w| - 1] == c[i]
    ensures forall x :: x in w ==> x in c
    decreases i
  {
    assert c[i] in c;
    if i == 0 {
      w := [c[0]];
    } else {
      var j :| 0 <= j < i && c[j] < |adj| && c[i] in adj[c[j]];
      var w0 := LinkedWalk(adj, c, j);
      w := w0 + [c[i]];
      forall a, b | 0 <= a < |w| && b == a + 1 < |w| ensures w[b] in adj[w[a]] {
        if b < |w0| {
          assert w[a] == w0[a] && w[b] == w0[b];
        }
      }
    }
  }

  /** Every node of a component is reached from the component's first node by a walk inside it. */
  lemma ComponentWalk(adj: Adj, k: nat, i: nat) returns (w: seq<nat>)
    requires WellFormed(adj) && k < |ComponentsOf(adj)| && i < |ComponentsOf(adj)[k]|
    ensures IsWalk(adj, w) && w != []
    ensures w[0] == ComponentsOf(adj)[k][0] && w[|w| - 1] == ComponentsOf(adj)[k][i]
    ensures forall x :: x in w ==> x in ComponentsOf(adj)[k]
  {
    var c := ComponentsOf(adj)[k];
    ComponentsConnected(adj);
    ComponentsArePartition(adj);
    assert forall x :: x in c ==> x < |adj|;
    w := LinkedWalk(adj, c, i);
  }
}
