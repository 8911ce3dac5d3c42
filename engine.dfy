/**
 * The current engine (`src/graph.ts`): a graph whose neighbour lists grow one
 * directed entry at a time, and whose components and analysis records are
 * computed lazily and cached behind a dirty flag.
 */
module Engine {
  import opened Wrappers
  import opened Adjacency
  import opened Edges
  import opened Components
  import opened Analysis
  import opened Aggregates
  import opened Highlight

  /** The indices of a `visited` array that are marked. */
  function TrueSet(s: seq<bool>): (t: set<nat>)
    ensures forall x: int :: x in t <==> 0 <= x < |s| && s[x]
    ensures t <= Nodes(|s|)
  {
    set x: nat | x < |s| && s[x]
  }

  class Graph {
    var adjList: seq<seq<nat>>
    var components: Option<seq<seq<nat>>>
    var componentAnalysis: Option<seq<ComponentAnalysis>>
    var needsReanalysis: bool

    /**
     * Every stored neighbour is a node, and while the dirty flag is clear both
     * caches hold what the analysis computes from the current lists.
     */
    ghost predicate Valid()
      reads this
    {
      && WellFormed(adjList)
      && (!needsReanalysis ==>
            && components == Some(ComponentsOf(adjList))
            && componentAnalysis == Some(AnalysisOf(adjList)))
    }

    /** `new Graph(numNodes)`: `numNodes` empty neighbour lists, caches empty and dirty. */
    constructor (numNodes: nat)
      ensures Valid()
      ensures |adjList| == numNodes && forall i :: 0 <= i < numNodes ==> adjList[i] == []
      ensures needsReanalysis && components == None && componentAnalysis == None
      ensures NodeCount() == numNodes
    {
      var lists: seq<seq<nat>> := [];
      var i := 0;
      while i < numNodes
        invariant i <= numNodes
        invariant |lists| == i && forall k :: 0 <= k < i ==> lists[k] == []
      {
        lists := lists + [[]];
        i := i + 1;
      }
      adjList := lists;
      components := None;
      componentAnalysis := None;
      needsReanalysis := true;
    }

    /** `nodeCount`: the number of lists, which the component records' sizes add up to. */
    function NodeCount(): (n: nat)
      reads this
      ensures Valid() ==> n == Total(AnalysisOf(adjList), Vertices)
    {
      NodesInRecords(adjList);
      |adjList|
    }

    /**
     * `addEdge(u, v)`: appends `v` to the list of `u`, leaves every other list
     * alone and marks the caches stale.
     */
    method AddEdge(u: nat, v: nat)
      requires Valid() && u < |adjList| && v < |adjList|
      modifies this
      ensures Valid()
      ensures |adjList| == |old(adjList)|
      ensures adjList[u] == old(adjList)[u] + [v]
      ensures forall i :: 0 <= i < |adjList| && i != u ==> adjList[i] == old(adjList)[i]
      ensures NodeCount() == old(NodeCount())
      ensures needsReanalysis
      ensures components == old(components) && componentAnalysis == old(componentAnalysis)
    {
      AppendEdgeWellFormed(adjList, u, v);
      adjList := AppendEdge(adjList, u, v);
      needsReanalysis := true;
    }

    /** `edgeCount`: the number of distinct keys {i, j} over all stored entries `j in adjList[i]`. */
    method EdgeCount() returns (count: nat)
      ensures count == |CanonicalEdges(adjList)|
    {
      var edgeSet: set<(nat, nat)> := {};
      ScanStart(adjList);
      var i := 0;
      while i < |adjList|
        invariant i <= |adjList|
        invariant edgeSet == ScannedEdges(adjList, i, 0)
      {
        var k := 0;
        while k < |adjList[i]|
          invariant k <= |adjList[i]|
          invariant edgeSet == ScannedEdges(adjList, i, k)
        {
          ScanEntry(adjList, i, k);
          edgeSet := edgeSet + {Canon(i, adjList[i][k])};
          k := k + 1;
        }
        ScanRow(adjList, i);
        i := i + 1;
      }
      ScanEnd(adjList);
      count := |edgeSet|;
    }

    /** `maxEdgeCount`: n(n-1)/2 for the current node count. */
    function MaxEdges(): (m: nat)
      reads this
      ensures m == |Pairs(|adjList|)|
    {
      PairsSize(|adjList|);
      MaxEdgeCount(|adjList|)
    }

    /**
     * `countComponentEdges(component)`: the number of distinct keys {x, y}
     * over the entries `y in adjList[x]` with both ends in the component.
     */
    method CountComponentEdges(component: seq<nat>) returns (count: nat)
      requires forall x :: x in component ==> x < |adjList|
      ensures count == |ComponentEdges(adjList, component)|
    {
      var componentSet := set x | x in component;
      var edgeSet: set<(nat, nat)> := {};
      ComponentScanStart(adjList, component);
      var i := 0;
      while i < |component|
        invariant i <= |component|
        invariant edgeSet == ScannedComponentEdges(adjList, component, i, 0)
      {
        var nodeIdx := component[i];
        assert nodeIdx in component;
        var k := 0;
        while k < |adjList[nodeIdx]|
          invariant k <= |adjList[nodeIdx]|
          invariant edgeSet == ScannedComponentEdges(adjList, component, i, k)
        {
          var neighbor := adjList[nodeIdx][k];
          ComponentScanEntry(adjList, component, i, k);
          if neighbor in componentSet {
            edgeSet := edgeSet + {Canon(nodeIdx, neighbor)};
          }
          k := k + 1;
        }
        ComponentScanRow(adjList, component, i);
        i := i + 1;
      }
      ComponentScanEnd(adjList, component);
      count := |edgeSet|;
    }

    /**
     * `dfs(v, visited, component)`: marks and appends `v`, then recurses into
     * each neighbour not yet marked; the marks and the component end up as
     * the functional traversal `Visit` computes them.
     */
    method Dfs(v: nat, visited: array<bool>, component: seq<nat>) returns (result: seq<nat>)
      requires WellFormed(adjList) && visited.Length == |adjList|
      requires v < |adjList| && !visited[v]
      modifies visited
      ensures (TrueSet(visited[..]), result) == Visit(adjList, v, TrueSet(old(visited[..])), component)
      decreases Nodes(|adjList|) - TrueSet(visited[..])
    {
      ghost var before := TrueSet(visited[..]);
      visited[v] := true;
      assert TrueSet(visited[..]) == before + {v};
      result := component + [v];
      var k := 0;
      while k < |adjList[v]|
        invariant k <= |adjList[v]|
        invariant before + {v} <= TrueSet(visited[..])
        invariant VisitList(adjList, adjList[v][k..], TrueSet(visited[..]), result)
                  == Visit(adjList, v, before, component)
      {
        var neighbor := adjList[v][k];
        ghost var marked, prefix := TrueSet(visited[..]), result;
        if !visited[neighbor] {
          result := Dfs(neighbor, visited, result);
        }
        VisitListStep(adjList, v, k, marked, prefix, (TrueSet(visited[..]), result));
        k := k + 1;
      }
    }

    /**
     * The first half of `analyzeComponents`: a traversal from every node not
     * yet marked, in index order, collecting the components in discovery order.
     */
    method FindComponents() returns (comps: seq<seq<nat>>)
      requires WellFormed(adjList)
      ensures comps == ComponentsOf(adjList)
    {
      var n := |adjList|;
      var visited := new bool[n](_ => false);
      assert TrueSet(visited[..]) == {};
      comps := [];
      var i := 0;
      while i < n
        invariant i <= n && visited.Length == n
        invariant ComponentsFrom(adjList, i, TrueSet(visited[..]), comps) == ComponentsOf(adjList)
      {
        if !visited[i] {
          var component := Dfs(i, visited, []);
          comps := comps + [component];
        }
        i := i + 1;
      }
    }

    /**
     * The second half of `analyzeComponents`: one record per component,
     * numbered by discovery index, with its edges counted.
     */
    method BuildRecords(comps: seq<seq<nat>>) returns (results: seq<ComponentAnalysis>)
      requires forall k, x :: 0 <= k < |comps| && x in comps[k] ==> x < |adjList|
      ensures results == DiscoveryRecords(adjList, comps)
    {
      results := [];
      var k := 0;
      while k < |comps|
        invariant k <= |comps|
        invariant results == DiscoveryRecords(adjList, comps)[..k]
      {
        var component := comps[k];
        var edges := CountComponentEdges(component);
        results := results + [MakeRecord(k, component, edges)];
        k := k + 1;
      }
    }

    /**
     * `analyzeComponents`: the components in discovery order and the sorted
     * records, written to both caches with the dirty flag cleared.
     */
    method AnalyzeComponents() returns (analysis: seq<ComponentAnalysis>)
      requires Valid()
      modifies this
      ensures Valid() && !needsReanalysis && adjList == old(adjList)
      ensures components == Some(ComponentsOf(adjList))
      ensures analysis == AnalysisOf(adjList) && componentAnalysis == Some(analysis)
    {
      var comps := FindComponents();
      ComponentsArePartition(adjList);
      components := Some(comps);
      var results := BuildRecords(comps);
      analysis := SortByVertices(results);
      componentAnalysis := Some(analysis);
      needsReanalysis := false;
    }

    /** The `components` getter: recomputes only when the caches are stale. */
    method GetComponents() returns (cs: seq<seq<nat>>)
      requires Valid()
      modifies this
      ensures Valid() && !needsReanalysis && adjList == old(adjList)
      ensures cs == ComponentsOf(adjList)
      ensures !old(needsReanalysis) ==>
                components == old(components) && componentAnalysis == old(componentAnalysis)
    {
      if needsReanalysis || components.None? {
        var _ := AnalyzeComponents();
      }
      cs := components.value;
    }

    /** The `componentAnalysis` getter: recomputes only when the caches are stale. */
    method GetComponentAnalysis() returns (rs: seq<ComponentAnalysis>)
      requires Valid()
      modifies this
      ensures Valid() && !needsReanalysis && adjList == old(adjList)
      ensures rs == AnalysisOf(adjList)
      ensures !old(needsReanalysis) ==>
                components == old(components) && componentAnalysis == old(componentAnalysis)
    {
      if needsReanalysis || componentAnalysis.None? {
        var _ := AnalyzeComponents();
      }
      rs := componentAnalysis.value;
    }

    /** `giantComponentSize`. */
    method GiantComponent() returns (g: nat)
      requires Valid()
      modifies this
      ensures Valid() && !needsReanalysis && adjList == old(adjList)
      ensures g == GiantComponentSize(AnalysisOf(adjList))
    {
      var rs := GetComponentAnalysis();
      g := GiantComponentSize(rs);
    }

    /** `totalCycleCount`. */
    method TotalCycles() returns (total: nat)
      requires Valid()
      modifies this
      ensures Valid() && !needsReanalysis && adjList == old(adjList)
      ensures total == TotalCycleCount(AnalysisOf(adjList))
    {
      var rs := GetComponentAnalysis();
      total := TotalCycleCount(rs);
    }

    /** `componentTypeCounts`. */
    method TypeCounts() returns (counts: TypeCounts)
      requires Valid()
      modifies this
      ensures Valid() && !needsReanalysis && adjList == old(adjList)
      ensures counts == ComponentTypeCounts(AnalysisOf(adjList))
    {
      var rs := GetComponentAnalysis();
      counts := ComponentTypeCounts(rs);
    }

    /** `getComponentSizeDistribution`. */
    method GetComponentSizeDistribution() returns (distribution: map<nat, nat>)
      requires Valid()
      modifies this
      ensures Valid() && !needsReanalysis && adjList == old(adjList)
      ensures distribution.Keys == set r | r in AnalysisOf(adjList) :: r.vertices
      ensures forall s :: s in distribution ==> distribution[s] == CountSize(AnalysisOf(adjList), s)
    {
      var rs := GetComponentAnalysis();
      distribution := SizeDistribution(rs);
    }

    /**
     * `findCycleToHighlight`, with the random draw replaced by `pick`: no
     * cycle without a unicyclic record; otherwise any cycle returned is a
     * simple cycle inside the chosen unicyclic component.
     */
    method FindCycleToHighlight(pick: nat) returns (cycle: Option<seq<nat>>)
      requires Valid() && Symmetric(adjList) && NoSelfLoops(adjList) && NoDuplicates(adjList)
      modifies this
      ensures Valid() && !needsReanalysis && adjList == old(adjList)
      ensures Filter(AnalysisOf(adjList), Unicyclic) == [] ==> cycle == None
      ensures Filter(AnalysisOf(adjList), Unicyclic) != [] ==> cycle.Some?
      ensures cycle.Some? ==>
                var uni := Filter(AnalysisOf(adjList), Unicyclic);
                && uni != []
                && IsSimpleCycle(adjList, cycle.value)
                && forall x :: x in cycle.value ==> x in uni[pick % |uni|].component
    {
      var rs := GetComponentAnalysis();
      cycle := FindCycle(adjList, rs, pick);
    }
  }
}
