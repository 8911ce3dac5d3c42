/**
 * The per-component analysis records of `analyzeComponents` and the stable
 * descending sort by size that orders them.
 */
module Analysis {
  import opened Adjacency
  import opened Edges
  import opened Components

  /**
   * One analysis record. `componentId` is the component's index in discovery
   * order, assigned before sorting, so after sorting it need not equal the
   * record's position.
   */
  datatype ComponentAnalysis = ComponentAnalysis(
    componentId: nat,
    component: seq<nat>,
    vertices: nat,
    edges: nat,
    cycles: nat,
    isTree: bool,
    isIsolated: bool,
    isUnicyclic: bool,
    isMulticyclic: bool)

  /** The record built from a component and its deduplicated edge count. */
  function MakeRecord(id: nat, comp: seq<nat>, edges: nat): ComponentAnalysis {
    var vertices := |comp|;
    // Math.max(0, edges - vertices + 1)
    var cycles := if edges + 1 >= vertices then edges + 1 - vertices else 0;
    ComponentAnalysis(id, comp, vertices, edges, cycles,
                      cycles == 0 && vertices > 1, vertices == 1, cycles == 1, cycles > 1)
  }

  /** Exactly one of the four classification flags is set. */
  predicate OneKind(r: ComponentAnalysis) {
    (if r.isIsolated then 1 else 0) + (if r.isTree then 1 else 0)
      + (if r.isUnicyclic then 1 else 0) + (if r.isMulticyclic then 1 else 0) == 1
  }

  /**
   * The flags in terms of edges E and vertices V: a tree has E + 1 = V or
   * fewer edges and more than one vertex, a unicyclic component has E = V, a
   * multicyclic one E > V; and a record with at least one vertex, whose single
   * vertex (if it is alone) has no edge, has exactly one flag set.
   */
  lemma KindsByEdgeCount(id: nat, comp: seq<nat>, edges: nat)
    ensures var r := MakeRecord(id, comp, edges);
      && (r.isTree <==> |comp| > 1 && edges + 1 <= |comp|)
      && (r.isUnicyclic <==> edges == |comp|)
      && (r.isMulticyclic <==> edges > |comp|)
      && (r.isIsolated <==> |comp| == 1)
      && (|comp| > 0 && (|comp| == 1 ==> edges == 0) ==> OneKind(r))
  {
  }

  /** A lone node with no self-loop has no edge inside its component. */
  lemma SingletonHasNoEdges(adj: Adj, x: nat)
    requires x < |adj| && x !in adj[x]
    ensures ComponentEdges(adj, [x]) == {}
  {
  }

  /** The records in discovery order, `componentId` = index. */
  ghost function DiscoveryRecords(adj: Adj, comps: seq<seq<nat>>): seq<ComponentAnalysis>
  {
    seq(|comps|, k requires 0 <= k < |comps| => MakeRecord(k, comps[k], |ComponentEdges(adj, comps[k])|))
  }

  /** Stable insertion: `x` goes before the first record that is not larger. */
  function InsertByVertices(x: ComponentAnalysis, s: seq<ComponentAnalysis>): seq<ComponentAnalysis> {
    if s == [] || s[0].vertices <= x.vertices then [x] + s
    else [s[0]] + InsertByVertices(x, s[1..])
  }

  /** `Array.prototype.sort` with comparator `b.vertices - a.vertices` (a stable sort). */
  function SortByVertices(s: seq<ComponentAnalysis>): seq<ComponentAnalysis> {
    if s == [] then [] else InsertByVertices(s[0], SortByVertices(s[1..]))
  }

  ghost predicate SortedBySize(s: seq<ComponentAnalysis>) {
    forall i, j :: 0 <= i < j < |s| ==> s[i].vertices >= s[j].vertices
  }

  /** Records of equal size keep their discovery order. */
  ghost predicate TiesInDiscoveryOrder(s: seq<ComponentAnalysis>) {
    forall i, j :: 0 <= i < j < |s| && s[i].vertices == s[j].vertices ==>
      s[i].componentId < s[j].componentId
  }

  ghost predicate IdsAscending(s: seq<ComponentAnalysis>) {
    forall i, j :: 0 <= i < j < |s| ==> s[i].componentId < s[j].componentId
  }

  lemma {:induction false} InsertMembers(x: ComponentAnalysis, s: seq<ComponentAnalysis>)
    ensures multiset(InsertByVertices(x, s)) == multiset(s) + multiset{x}
    ensures |InsertByVertices(x, s)| == |s| + 1
    decreases |s|
  {
    if s != [] && s[0].vertices > x.vertices {
      InsertMembers(x, s[1..]);
      assert s == [s[0]] + s[1..];
    }
  }

  /** `h` may stand before every record of `t`. */
  ghost predicate Dominates(h: ComponentAnalysis, t: seq<ComponentAnalysis>) {
    forall j :: 0 <= j < |t| ==>
      h.vertices >= t[j].vertices && (h.vertices == t[j].vertices ==> h.componentId < t[j].componentId)
  }

  lemma ConsSorted(h: ComponentAnalysis, t: seq<ComponentAnalysis>)
    requires Dominates(h, t) && SortedBySize(t) && TiesInDiscoveryOrder(t)
    ensures SortedBySize([h] + t) && TiesInDiscoveryOrder([h] + t)
  {
    var s := [h] + t;
    forall i, j | 0 <= i < j < |s| ensures s[i].vertices >= s[j].vertices {
      if i > 0 { assert s[i] == t[i - 1] && s[j] == t[j - 1]; } else { assert s[j] == t[j - 1]; }
    }
    forall i, j | 0 <= i < j < |s| && s[i].vertices == s[j].vertices ensures s[i].componentId < s[j].componentId {
      if i > 0 { assert s[i] == t[i - 1] && s[j] == t[j - 1]; } else { assert s[j] == t[j - 1]; }
    }
  }

  lemma DominatesMultiset(h: ComponentAnalysis, a: seq<ComponentAnalysis>, b: seq<ComponentAnalysis>)
    requires Dominates(h, a) && multiset(b) <= multiset(a)
    ensures Dominates(h, b)
  {
    forall j | 0 <= j < |b| ensures h.vertices >= b[j].vertices
      && (h.vertices == b[j].vertices ==> h.componentId < b[j].componentId)
    {
      assert b[j] in multiset(b);
      assert b[j] in multiset(a);
      var m :| 0 <= m < |a| && a[m] == b[j];
    }
  }

  lemma {:induction false} InsertSorted(x: ComponentAnalysis, s: seq<ComponentAnalysis>)
    requires SortedBySize(s) && TiesInDiscoveryOrder(s)
    requires forall k :: 0 <= k < |s| ==> x.componentId < s[k].componentId
    ensures SortedBySize(InsertByVertices(x, s)) && TiesInDiscoveryOrder(InsertByVertices(x, s))
    decreases |s|
  {
    if s == [] || s[0].vertices <= x.vertices {
      ConsSorted(x, s);
    } else {
      var t := InsertByVertices(x, s[1..]);
      InsertSorted(x, s[1..]);
      InsertMembers(x, s[1..]);
      assert Dominates(s[0], s[1..] + [x]) by {
        forall j | 0 <= j < |s[1..] + [x]| ensures s[0].vertices >= (s[1..] + [x])[j].vertices
          && (s[0].vertices == (s[1..] + [x])[j].vertices ==> s[0].componentId < (s[1..] + [x])[j].componentId)
        {
          if j < |s| - 1 { assert (s[1..] + [x])[j] == s[j + 1]; }
        }
      }
      assert multiset(s[1..] + [x]) == multiset(s[1..]) + multiset{x};
      DominatesMultiset(s[0], s[1..] + [x], t);
      ConsSorted(s[0], t);
    }
  }

  /** In ascending-id order the first record's id is below that of any permutation of the rest. */
  lemma FirstIdSmallest(s: seq<ComponentAnalysis>, t: seq<ComponentAnalysis>)
    requires IdsAscending(s) && s != [] && multiset(t) == multiset(s[1..])
    ensures forall k :: 0 <= k < |t| ==> s[0].componentId < t[k].componentId
  {
    forall k | 0 <= k < |t| ensures s[0].componentId < t[k].componentId {
      assert t[k] in multiset(s[1..]);
      var m :| 0 <= m < |s[1..]| && s[1..][m] == t[k];
      assert s[m + 1] == t[k];
    }
  }

  /**
   * The sort returns a permutation of its input, ordered by `vertices`
   * non-increasing; when the input is in discovery order (ascending ids),
   * records of equal size stay in discovery order.
   */
  lemma SortByVerticesCorrect(s: seq<ComponentAnalysis>)
    requires IdsAscending(s)
    ensures multiset(SortByVertices(s)) == multiset(s)
    ensures |SortByVertices(s)| == |s|
    ensures SortedBySize(SortByVertices(s))
    ensures TiesInDiscoveryOrder(SortByVertices(s))
  {
    SortByVerticesPermutes(s);
    SortByVerticesOrders(s);
  }

  /** The sort keeps every record, each as often as in the input. */
  lemma {:induction false} SortByVerticesPermutes(s: seq<ComponentAnalysis>)
    ensures multiset(SortByVertices(s)) == multiset(s)
    ensures |SortByVertices(s)| == |s|
  {
    if s != [] {
      SortByVerticesPermutes(s[1..]);
      InsertMembers(s[0], SortByVertices(s[1..]));
      assert s == [s[0]] + s[1..];
    }
  }

  /** On input in ascending-id order the sort orders by size, ties by id. */
  lemma {:induction false} SortByVerticesOrders(s: seq<ComponentAnalysis>)
    requires IdsAscending(s)
    ensures SortedBySize(SortByVertices(s))
    ensures TiesInDiscoveryOrder(SortByVertices(s))
  {
    if s != [] {
      SortByVerticesOrders(s[1..]);
      var t := SortByVertices(s[1..]);
      SortByVerticesPermutes(s[1..]);
      FirstIdSmallest(s, t);
      InsertSorted(s[0], t);
    }
  }

  /** `componentAnalysis`: the discovery-order records, sorted by size. */
  ghost function AnalysisOf(adj: Adj): seq<ComponentAnalysis>
    requires WellFormed(adj)
  {
    ComponentsArePartition(adj);
    SortByVertices(DiscoveryRecords(adj, ComponentsOf(adj)))
  }

  function Vertices(r: ComponentAnalysis): nat { r.vertices }
  function Cycles(r: ComponentAnalysis): nat { r.cycles }

  /** The sum of `f` over the records (`reduce((sum, c) => sum + f(c), 0)`). */
  function Total(s: seq<ComponentAnalysis>, f: ComponentAnalysis -> nat): nat {
    if s == [] then 0 else f(s[0]) + Total(s[1..], f)
  }

  /** The records that satisfy `p`, in order (`filter(p)`). */
  function Filter(s: seq<ComponentAnalysis>, p: ComponentAnalysis -> bool): seq<ComponentAnalysis> {
    if s == [] then [] else (if p(s[0]) then [s[0]] else []) + Filter(s[1..], p)
  }

  lemma {:induction false} TotalAppend(s: seq<ComponentAnalysis>, x: ComponentAnalysis, f: ComponentAnalysis -> nat)
    ensures Total(s + [x], f) == Total(s, f) + f(x)
    decreases |s|
  {
    if s != [] {
      assert (s + [x])[1..] == s[1..] + [x];
      TotalAppend(s[1..], x, f);
    }
  }

  lemma {:induction false} TotalInsert(x: ComponentAnalysis, s: seq<ComponentAnalysis>, f: ComponentAnalysis -> nat)
    ensures Total(InsertByVertices(x, s), f) == f(x) + Total(s, f)
    decreases |s|
  {
    if s != [] && s[0].vertices > x.vertices {
      TotalInsert(x, s[1..], f);
    } else {
      assert ([x] + s)[1..] == s;
    }
  }

  lemma {:induction false} FilterInsert(x: ComponentAnalysis, s: seq<ComponentAnalysis>, p: ComponentAnalysis -> bool)
    ensures |Filter(InsertByVertices(x, s), p)| == (if p(x) then 1 else 0) + |Filter(s, p)|
    decreases |s|
  {
    if s != [] && s[0].vertices > x.vertices {
      FilterInsert(x, s[1..], p);
      assert ([s[0]] + InsertByVertices(x, s[1..]))[1..] == InsertByVertices(x, s[1..]);
    } else {
      assert ([x] + s)[1..] == s;
    }
  }

  /** Sorting does not change a sum over the records. */
  lemma {:induction false} SortKeepsTotal(s: seq<ComponentAnalysis>, f: ComponentAnalysis -> nat)
    ensures Total(SortByVertices(s), f) == Total(s, f)
  {
    if s != [] {
      SortKeepsTotal(s[1..], f);
      TotalInsert(s[0], SortByVertices(s[1..]), f);
    }
  }

  /** Sorting does not change the size of a filter. */
  lemma {:induction false} SortKeepsFilter(s: seq<ComponentAnalysis>, p: ComponentAnalysis -> bool)
    ensures |Filter(SortByVertices(s), p)| == |Filter(s, p)|
  {
    if s != [] {
      SortKeepsFilter(s[1..], p);
      FilterInsert(s[0], SortByVertices(s[1..]), p);
    }
  }

  lemma {:induction false} DiscoveryVertices(adj: Adj, comps: seq<seq<nat>>)
    ensures Total(DiscoveryRecords(adj, comps), Vertices) == SumSizes(comps)
    decreases |comps|
  {
    if comps != [] {
      var init := comps[..|comps| - 1];
      DiscoveryVertices(adj, init);
      var rs := DiscoveryRecords(adj, comps);
      assert rs == DiscoveryRecords(adj, init) + [rs[|comps| - 1]];
      TotalAppend(DiscoveryRecords(adj, init), rs[|comps| - 1], Vertices);
    }
  }

  /**
   * The records are a permutation of the discovery-order records, sorted by
   * `vertices` non-increasing, with ties in discovery order; their `vertices`
   * fields add up to the node count.
   */
  lemma AnalysisSorted(adj: Adj)
    requires WellFormed(adj)
    ensures multiset(AnalysisOf(adj)) == multiset(DiscoveryRecords(adj, ComponentsOf(adj)))
    ensures |AnalysisOf(adj)| == |ComponentsOf(adj)|
    ensures SortedBySize(AnalysisOf(adj)) && TiesInDiscoveryOrder(AnalysisOf(adj))
    ensures Total(AnalysisOf(adj), Vertices) == |adj|
  {
    ComponentsArePartition(adj);
    var d := DiscoveryRecords(adj, ComponentsOf(adj));
    SortByVerticesCorrect(d);
    SortKeepsTotal(d, Vertices);
    DiscoveryVertices(adj, ComponentsOf(adj));
  }

  /** On well-formed lists, the records' `vertices` add up to the number of nodes. */
  lemma NodesInRecords(adj: Adj)
    ensures WellFormed(adj) ==> Total(AnalysisOf(adj), Vertices) == |adj|
  {
    if WellFormed(adj) {
      AnalysisSorted(adj);
    }
  }

  lemma RecordOfDiscovery(adj: Adj, cs: seq<seq<nat>>, r: ComponentAnalysis)
    requires r in DiscoveryRecords(adj, cs)
    requires forall k, x :: 0 <= k < |cs| && x in cs[k] ==> x < |adj|
    requires forall k :: 0 <= k < |cs| ==> |cs[k]| > 0
    ensures r.componentId < |cs| && r.component == cs[r.componentId]
    ensures r == MakeRecord(r.componentId, r.component, |ComponentEdges(adj, r.component)|)
    ensures NoSelfLoops(adj) ==> OneKind(r)
  {
    var d := DiscoveryRecords(adj, cs);
    var k :| 0 <= k < |d| && d[k] == r;
    KindsByEdgeCount(k, cs[k], |ComponentEdges(adj, cs[k])|);
    if NoSelfLoops(adj) && |cs[k]| == 1 {
      assert cs[k] == [cs[k][0]];
      assert cs[k][0] in cs[k];
      SingletonHasNoEdges(adj, cs[k][0]);
    }
  }

  /**
   * Each record describes the component found `componentId`-th: its members,
   * their count, the deduplicated edges between them and the cyclomatic
   * number max(0, E - V + 1); without self-loops exactly one flag is set.
   */
  lemma AnalysisRecords(adj: Adj)
    requires WellFormed(adj)
    ensures forall r :: r in AnalysisOf(adj) ==>
      && r.componentId < |ComponentsOf(adj)|
      && r.component == ComponentsOf(adj)[r.componentId]
      && r == MakeRecord(r.componentId, r.component, |ComponentEdges(adj, r.component)|)
    ensures NoSelfLoops(adj) ==> forall r :: r in AnalysisOf(adj) ==> OneKind(r)
  {
    ComponentsArePartition(adj);
    var cs := ComponentsOf(adj);
    var d := DiscoveryRecords(adj, cs);
    SortByVerticesCorrect(d);
    forall r | r in AnalysisOf(adj)
      ensures r.componentId < |cs| && r.component == cs[r.componentId]
      ensures r == MakeRecord(r.componentId, r.component, |ComponentEdges(adj, r.component)|)
      ensures NoSelfLoops(adj) ==> OneKind(r)
    {
      assert r in multiset(d);
      RecordOfDiscovery(adj, cs, r);
    }
  }
}
