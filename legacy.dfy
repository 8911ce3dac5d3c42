/**
 * The earlier engine (`graph.ts` at the repository root): neighbour lists
 * that grow one directed entry at a time, and `findCycles`, an exhaustive
 * search for simple cycles that reports each one once, from its smallest
 * node, deduplicated by canonical key.
 */
module Legacy {
  import opened Adjacency
  import opened CycleKeys

  /** A simple cycle whose first node is strictly smaller than all the others. */
  ghost predicate RootedCycle(adj: Adj, c: seq<nat>) {
    && IsSimpleCycle(adj, c)
    && forall k :: 0 < k < |c| ==> c[0] < c[k]
  }

  /** A rooted cycle that starts at `start`: what the search from `start` must report. */
  ghost predicate Closes(adj: Adj, start: nat, p: seq<nat>) {
    RootedCycle(adj, p) && p[0] == start
  }

  /** The keys of the reported cycles. */
  ghost function Keys(key: seq<nat> -> string, cycles: seq<seq<nat>>): set<string> {
    set c | c in cycles :: key(c)
  }

  /** No two reported cycles share a key. */
  ghost predicate KeysDistinct(key: seq<nat> -> string, cycles: seq<seq<nat>>) {
    forall i, j :: 0 <= i < j < |cycles| ==> key(cycles[i]) != key(cycles[j])
  }

  /** Every reported cycle is rooted, `seen` holds exactly their keys, and no key repeats. */
  ghost predicate Reported(adj: Adj, key: seq<nat> -> string, seen: set<string>, cycles: seq<seq<nat>>) {
    && seen == Keys(key, cycles)
    && KeysDistinct(key, cycles)
    && forall c :: c in cycles ==> RootedCycle(adj, c)
  }

  lemma KeysAppend(key: seq<nat> -> string, cycles: seq<seq<nat>>, c: seq<nat>)
    ensures Keys(key, cycles + [c]) == Keys(key, cycles) + {key(c)}
  {
    var cs := cycles + [c];
    forall x | x in cs ensures x in cycles || x == c {
    }
    forall x | x in cycles ensures x in cs {
    }
  }

  /** Reporting a rooted cycle under a new key keeps the reports consistent. */
  lemma ReportNew(adj: Adj, key: seq<nat> -> string, seen: set<string>, cycles: seq<seq<nat>>, c: seq<nat>)
    requires Reported(adj, key, seen, cycles) && RootedCycle(adj, c) && key(c) !in seen
    ensures Reported(adj, key, seen + {key(c)}, cycles + [c])
  {
    var cs := cycles + [c];
    KeysAppend(key, cycles, c);
    forall i, j | 0 <= i < j < |cs| ensures key(cs[i]) != key(cs[j]) {
      if j == |cycles| {
        assert cs[i] in cycles;
      }
    }
  }

  /**
   * The search path from `start` to `current`: distinct nodes along stored
   * entries, every node after the first larger than `start`.
   */
  ghost predicate SearchPath(adj: Adj, start: nat, current: nat, path: seq<nat>) {
    && path != [] && path[0] == start && path[|path| - 1] == current
    && Distinct(path) && IsWalk(adj, path)
    && forall k :: 0 < k < |path| ==> start < path[k]
  }

  /** The nodes not on the path: they shrink with every extension. */
  ghost function Unused(adj: Adj, path: seq<nat>): set<nat> {
    Nodes(|adj|) - (set x | x in path)
  }

  lemma PrefixExtend(path: seq<nat>, w: nat, p: seq<nat>)
    requires path < p && p[|path|] == w
    ensures path + [w] <= p
  {
    assert p[..|path| + 1] == p[..|path|] + [p[|path|]];
  }

  /** A rooted cycle extending the path cannot continue with a node already on it or not above `start`. */
  lemma NoReentry(adj: Adj, start: nat, path: seq<nat>, p: seq<nat>, w: nat)
    requires path != [] && path[0] == start
    requires Closes(adj, start, p) && path < p && p[|path|] == w
    ensures w !in path && start < w
  {
  }

  /** Every rooted cycle from `start` that extends `path` has its key in `seen`. */
  ghost predicate AllCovered(adj: Adj, key: seq<nat> -> string, start: nat, path: seq<nat>, seen: set<string>) {
    forall p :: Closes(adj, start, p) && path <= p ==> key(p) in seen
  }

  /**
   * Every rooted cycle from `start` that leaves `path` through one of the
   * entries `ns` has its key in `seen`.
   */
  ghost predicate Covered(adj: Adj, key: seq<nat> -> string, start: nat, path: seq<nat>, ns: seq<nat>,
                          seen: set<string>) {
    forall p :: Closes(adj, start, p) && path < p && p[|path|] in ns ==> key(p) in seen
  }

  /** Entries already dealt with stay covered as `seen` grows. */
  lemma CoveredGrows(adj: Adj, key: seq<nat> -> string, start: nat, path: seq<nat>, ns: seq<nat>,
                     seen: set<string>, seen': set<string>)
    requires Covered(adj, key, start, path, ns, seen) && seen <= seen'
    ensures Covered(adj, key, start, path, ns, seen')
  {
  }

  /** After the search through `w`, the entries up to and including `w` are covered. */
  lemma CoveredChild(adj: Adj, key: seq<nat> -> string, start: nat, path: seq<nat>, ns: seq<nat>, w: nat,
                     seen: set<string>, seen': set<string>)
    requires Covered(adj, key, start, path, ns, seen) && seen <= seen'
    requires AllCovered(adj, key, start, path + [w], seen')
    ensures Covered(adj, key, start, path, ns + [w], seen')
  {
    forall p | Closes(adj, start, p) && path < p && p[|path|] in ns + [w]
      ensures key(p) in seen'
    {
      if p[|path|] == w {
        PrefixExtend(path, w, p);
      } else {
        assert p[|path|] in ns;
      }
    }
  }

  /** An entry on the path or not above `start` leads to no rooted cycle from `start`. */
  lemma CoveredSkip(adj: Adj, key: seq<nat> -> string, start: nat, path: seq<nat>, ns: seq<nat>, w: nat,
                    seen: set<string>)
    requires path != [] && path[0] == start && (w in path || w <= start)
    requires Covered(adj, key, start, path, ns, seen)
    ensures Covered(adj, key, start, path, ns + [w], seen)
  {
    forall p | Closes(adj, start, p) && path < p && p[|path|] in ns + [w]
      ensures key(p) in seen
    {
      if p[|path|] == w {
        NoReentry(adj, start, path, p, w);
      } else {
        assert p[|path|] in ns;
      }
    }
  }

  /** With every entry of the last node covered, and the path itself if it closes, all is covered. */
  lemma CoveredAll(adj: Adj, key: seq<nat> -> string, start: nat, path: seq<nat>, seen: set<string>)
    requires path != [] && path[|path| - 1] < |adj|
    requires Covered(adj, key, start, path, adj[path[|path| - 1]], seen)
    requires |path| >= 3 && start in adj[path[|path| - 1]] ==> key(path) in seen
    ensures AllCovered(adj, key, start, path, seen)
  {
    var current := path[|path| - 1];
    forall p | Closes(adj, start, p) && path <= p
      ensures key(p) in seen
    {
      assert p[|path| - 1] == current;
      if |p| > |path| {
        assert p[|path|] in adj[current];
      } else {
        assert p == path;
      }
    }
  }

  /**
   * The state `findCycles` shares between its nested `dfs` calls: the graph,
   * the key helper, the current path, the set of keys seen and the list of
   * cycles reported. What `dfs` guarantees holds whatever the key helper is.
   */
  class CycleSearch {
    const adj: Adj
    const canonicalize: seq<nat> -> string
    var path: seq<nat>
    var seen: set<string>
    var cycles: seq<seq<nat>>

    /** The graph is well formed and the reports are consistent. */
    ghost predicate Valid()
      reads this
    {
      WellFormed(adj) && Reported(adj, canonicalize, seen, cycles)
    }

    constructor (adj: Adj, canonicalize: seq<nat> -> string)
      requires WellFormed(adj)
      ensures Valid() && this.adj == adj && this.canonicalize == canonicalize
      ensures path == [] && seen == {} && cycles == []
    {
      this.adj := adj;
      this.canonicalize := canonicalize;
      path := [];
      seen := {};
      cycles := [];
    }

    /** A closed path is reported under its key unless that key was seen before. */
    method Record(cycle: seq<nat>)
      requires Valid() && RootedCycle(adj, cycle)
      modifies this
      ensures Valid() && path == old(path)
      ensures seen == old(seen) + {canonicalize(cycle)}
      ensures cycles == if canonicalize(cycle) in old(seen) then old(cycles) else old(cycles) + [cycle]
    {
      var key := canonicalize(cycle);
      if key !in seen {
        ReportNew(adj, canonicalize, seen, cycles, cycle);
        seen := seen + {key};
        cycles := cycles + [cycle];
      }
    }

    /**
     * `dfs(start, current, path)`: over the entries of `current`, a return to
     * `start` on a path of three or more nodes reports the path if its key is
     * new; an entry off the path and above `start` is pushed, searched and
     * popped. Every rooted cycle from `start` that extends the path ends up
     * with its key in `seen`, and the path is as it was.
     */
    method Dfs(start: nat, current: nat)
      requires Valid() && SearchPath(adj, start, current, path)
      modifies this
      ensures Valid() && path == old(path) && old(seen) <= seen
      ensures AllCovered(adj, canonicalize, start, path, seen)
      decreases Unused(adj, path), 1
    {
      var neighbors := adj[current];
      var k := 0;
      while k < |neighbors|
        invariant k <= |neighbors|
        invariant Valid() && path == old(path) && old(seen) <= seen
        invariant |path| >= 3 && start in neighbors[..k] ==> canonicalize(path) in seen
        invariant Covered(adj, canonicalize, start, path, neighbors[..k], seen)
      {
        Step(start, current, neighbors[k], neighbors[..k]);
        assert neighbors[..k + 1] == neighbors[..k] + [neighbors[k]];
        k := k + 1;
      }
      assert neighbors[..k] == neighbors;
      CoveredAll(adj, canonicalize, start, path, seen);
    }

    /**
     * One entry `neighbor` of `current`'s list, as the loop in `dfs` handles
     * it; the entries `done` before it stay covered and it is covered too.
     */
    method Step(start: nat, current: nat, neighbor: nat, ghost done: seq<nat>)
      requires Valid() && SearchPath(adj, start, current, path) && neighbor in adj[current]
      requires Covered(adj, canonicalize, start, path, done, seen)
      modifies this
      ensures Valid() && path == old(path) && old(seen) <= seen
      ensures neighbor == start && |path| >= 3 ==> canonicalize(path) in seen
      ensures Covered(adj, canonicalize, start, path, done + [neighbor], seen)
      decreases Unused(adj, path), 0
    {
      if neighbor == start && |path| >= 3 {
        ghost var before := seen;
        Record(path);
        CoveredGrows(adj, canonicalize, start, path, done, before, seen);
        CoveredSkip(adj, canonicalize, start, path, done, neighbor, seen);
      } else if neighbor !in path && neighbor > start {
        ghost var before := seen;
        assert Unused(adj, path + [neighbor]) < Unused(adj, path) by {
          assert neighbor in Unused(adj, path);
        }
        path := path + [neighbor];
        Dfs(start, neighbor);
        path := path[..|path| - 1];
        CoveredChild(adj, canonicalize, start, path, done, neighbor, before, seen);
      } else {
        CoveredSkip(adj, canonicalize, start, path, done, neighbor, seen);
      }
    }
  }

  class Graph {
    var adjList: seq<seq<nat>>

    /** `new Graph(numNodes)`: `numNodes` empty neighbour lists. */
    constructor (numNodes: nat)
      ensures |adjList| == numNodes && forall i :: 0 <= i < numNodes ==> adjList[i] == []
    {
      var lists: seq<seq<nat>> := [];
      var i := 0;
      while i < numNodes
        invariant i <= numNodes
        invariant |lists| == i && forall k :: 0 <= k < i ==> lists[k] == []
      {
        lists := lists + [[]];
        i := i + 1;
      }
      adjList := lists;
    }

    /** `addEdge(u, v)`: appends `v` to the list of `u` and nothing else. */
    method AddEdge(u: nat, v: nat)
      requires u < |adjList|
      modifies this
      ensures adjList == AppendEdge(old(adjList), u, v)
    {
      adjList := AppendEdge(adjList, u, v);
    }

    /**
     * `findCycles`: a search from every node in index order. Each cycle
     * returned is a simple cycle whose first node is its smallest, no two share
     * a key, and every simple cycle of the graph has its key among theirs.
     */
    method FindCycles() returns (cycles: seq<seq<nat>>)
      requires WellFormed(adjList)
      ensures forall c :: c in cycles ==> IsSimpleCycle(adjList, c) && forall k :: 0 < k < |c| ==> c[0] < c[k]
      ensures KeysDistinct(Canonicalize, cycles)
      ensures forall c :: IsSimpleCycle(adjList, c) ==> Canonicalize(c) in Keys(Canonicalize, cycles)
    {
      var search := new CycleSearch(adjList, Canonicalize);
      var v := 0;
      while v < |adjList|
        invariant v <= |adjList|
        invariant search.adj == adjList && search.canonicalize == Canonicalize && search.Valid()
        invariant forall p :: RootedCycle(adjList, p) && p[0] < v ==> Canonicalize(p) in search.seen
      {
        search.path := [v];
        search.Dfs(v, v);
        forall p | RootedCycle(adjList, p) && p[0] == v
          ensures Canonicalize(p) in search.seen
        {
          assert Closes(adjList, v, p) && [v] <= p;
        }
        v := v + 1;
      }
      cycles := search.cycles;
      forall c | IsSimpleCycle(adjList, c)
        ensures Canonicalize(c) in Keys(Canonicalize, cycles)
      {
        MinRotation(adjList, c);
        CanonicalizeRotateToMin(c);
        assert RootedCycle(adjList, RotateToMin(c));
      }
    }
  }
}
