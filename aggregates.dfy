/**
 * The integer aggregates derived from the sorted analysis records: the
 * largest component, the total cycle count, the per-kind counts and the
 * size histogram.
 */
module Aggregates {
  import opened Adjacency
  import opened Components
  import opened Analysis

  /** `giantComponentSize`: the largest `vertices`, or 0 with no records. */
  function GiantComponentSize(rs: seq<ComponentAnalysis>): (g: nat)
    ensures forall r :: r in rs ==> r.vertices <= g
    ensures rs == [] ==> g == 0
    ensures rs != [] ==> exists r :: r in rs && r.vertices == g
  {
    if rs == [] then 0
    else
      var rest := GiantComponentSize(rs[1..]);
      assert forall r :: r in rs ==> r == rs[0] || r in rs[1..];
      if rs[0].vertices >= rest then rs[0].vertices else rest
  }

  /** On records sorted by size the largest is the first one. */
  lemma GiantOfSorted(rs: seq<ComponentAnalysis>)
    requires SortedBySize(rs) && rs != []
    ensures GiantComponentSize(rs) == rs[0].vertices
  {
    var g := GiantComponentSize(rs);
    var r :| r in rs && r.vertices == g;
    assert rs[0].vertices >= r.vertices;
  }

  /**
   * On a graph, the giant component size is the size of a largest component
   * found by the traversal, and 0 only for the empty graph.
   */
  lemma GiantOfGraph(adj: Adj)
    requires WellFormed(adj)
    ensures forall k :: 0 <= k < |ComponentsOf(adj)| ==> |ComponentsOf(adj)[k]| <= GiantComponentSize(AnalysisOf(adj))
    ensures |adj| > 0 ==> exists k :: 0 <= k < |ComponentsOf(adj)| && |ComponentsOf(adj)[k]| == GiantComponentSize(AnalysisOf(adj))
    ensures |adj| > 0 <==> GiantComponentSize(AnalysisOf(adj)) > 0
  {
    GiantBounds(adj);
    ComponentsArePartition(adj);
    var cs := ComponentsOf(adj);
    var g := GiantComponentSize(AnalysisOf(adj));
    if |adj| > 0 {
      var k := GiantReached(adj);
      assert cs[k][0] in cs[k];
    } else {
      AnalysisSorted(adj);
    }
  }

  /** No component is larger than the giant component size. */
  lemma GiantBounds(adj: Adj)
    requires WellFormed(adj)
    ensures forall k :: 0 <= k < |ComponentsOf(adj)| ==> |ComponentsOf(adj)[k]| <= GiantComponentSize(AnalysisOf(adj))
  {
    AnalysisSorted(adj);
    var cs := ComponentsOf(adj);
    var rs := AnalysisOf(adj);
    var d := DiscoveryRecords(adj, cs);
    forall k | 0 <= k < |cs|
      ensures |cs[k]| <= GiantComponentSize(rs)
    {
      assert d[k] in multiset(rs);
    }
  }

  /** On a non-empty graph some component has exactly the giant component size. */
  lemma GiantReached(adj: Adj) returns (k: nat)
    requires WellFormed(adj) && |adj| > 0
    ensures k < |ComponentsOf(adj)| && |ComponentsOf(adj)[k]| == GiantComponentSize(AnalysisOf(adj))
  {
    ComponentsArePartition(adj);
    AnalysisSorted(adj);
    AnalysisRecords(adj);
    var cs := ComponentsOf(adj);
    var rs := AnalysisOf(adj);
    assert 0 in Nodes(|adj|);
    assert InSome(cs, 0);
    var r :| r in rs && r.vertices == GiantComponentSize(rs);
    k := r.componentId;
  }

  /** `totalCycleCount`: the sum of the `cycles` fields. */
  function TotalCycleCount(rs: seq<ComponentAnalysis>): nat {
    Total(rs, Cycles)
  }

  /** The record's flags and cycle count are those `analyzeComponents` builds. */
  predicate WellBuilt(r: ComponentAnalysis) {
    r == MakeRecord(r.componentId, r.component, r.edges)
  }

  predicate Isolated(r: ComponentAnalysis) { r.isIsolated }
  predicate Tree(r: ComponentAnalysis) { r.isTree }
  predicate Unicyclic(r: ComponentAnalysis) { r.isUnicyclic }
  predicate Multicyclic(r: ComponentAnalysis) { r.isMulticyclic }

  /**
   * Each unicyclic record contributes one cycle and each multicyclic record at
   * least two; the total is 0 exactly when no record is unicyclic or
   * multicyclic.
   */
  lemma {:induction false} CyclesByKind(rs: seq<ComponentAnalysis>)
    requires forall r :: r in rs ==> WellBuilt(r)
    ensures TotalCycleCount(rs) >= |Filter(rs, Unicyclic)| + 2 * |Filter(rs, Multicyclic)|
    ensures TotalCycleCount(rs) == 0 <==> |Filter(rs, Unicyclic)| == 0 && |Filter(rs, Multicyclic)| == 0
  {
    if rs != [] {
      assert forall r :: r in rs[1..] ==> r in rs;
      CyclesByKind(rs[1..]);
      var h := rs[0];
      assert WellBuilt(h);
      assert |Filter(rs, Unicyclic)| == (if h.isUnicyclic then 1 else 0) + |Filter(rs[1..], Unicyclic)|;
      assert |Filter(rs, Multicyclic)| == (if h.isMulticyclic then 1 else 0) + |Filter(rs[1..], Multicyclic)|;
      assert TotalCycleCount(rs) == h.cycles + TotalCycleCount(rs[1..]);
    }
  }

  /** `componentTypeCounts`. */
  datatype TypeCounts = TypeCounts(isolated: nat, tree: nat, unicyclic: nat, multicyclic: nat)

  /** The four filter counts. */
  function ComponentTypeCounts(rs: seq<ComponentAnalysis>): TypeCounts {
    TypeCounts(|Filter(rs, Isolated)|, |Filter(rs, Tree)|,
               |Filter(rs, Unicyclic)|, |Filter(rs, Multicyclic)|)
  }

  /** With exactly one flag per record, the four counts add up to the number of records. */
  lemma {:induction false} TypeCountsAddUp(rs: seq<ComponentAnalysis>)
    requires forall r :: r in rs ==> OneKind(r)
    ensures var c := ComponentTypeCounts(rs);
      c.isolated + c.tree + c.unicyclic + c.multicyclic == |rs|
  {
    if rs != [] {
      assert forall r :: r in rs[1..] ==> r in rs;
      TypeCountsAddUp(rs[1..]);
      assert OneKind(rs[0]);
    }
  }

  /**
   * On a graph in which no node lists itself, every component is counted
   * under exactly one kind, and the totals do not depend on the sort.
   */
  lemma TypeCountsOfGraph(adj: Adj)
    requires WellFormed(adj) && NoSelfLoops(adj)
    ensures var c := ComponentTypeCounts(AnalysisOf(adj));
      c.isolated + c.tree + c.unicyclic + c.multicyclic == |ComponentsOf(adj)|
    ensures TotalCycleCount(AnalysisOf(adj)) == TotalCycleCount(DiscoveryRecords(adj, ComponentsOf(adj)))
  {
    AnalysisSorted(adj);
    AnalysisRecords(adj);
    TypeCountsAddUp(AnalysisOf(adj));
    ComponentsArePartition(adj);
    SortKeepsTotal(DiscoveryRecords(adj, ComponentsOf(adj)), Cycles);
  }

  /** How many records have `vertices == size`. */
  function CountSize(rs: seq<ComponentAnalysis>, size: nat): nat {
    if rs == [] then 0
    else CountSize(rs[..|rs| - 1], size) + (if rs[|rs| - 1].vertices == size then 1 else 0)
  }

  /** `m` is the size histogram of `rs`: one key per size that occurs, holding its count. */
  ghost predicate Histogram(rs: seq<ComponentAnalysis>, m: map<nat, nat>) {
    && m.Keys == (set r | r in rs :: r.vertices)
    && (forall s :: s in m ==> m[s] == CountSize(rs, s) && m[s] > 0)
    && (forall s :: s !in m ==> CountSize(rs, s) == 0)
  }

  /**
   * `getComponentSizeDistribution`: maps each size that occurs to the number
   * of records of that size.
   */
  method SizeDistribution(rs: seq<ComponentAnalysis>) returns (m: map<nat, nat>)
    ensures m.Keys == set r | r in rs :: r.vertices
    ensures forall s :: s in m ==> m[s] == CountSize(rs, s) && m[s] > 0
  {
    m := map[];
    var i := 0;
    assert rs[..i] == [];
    while i < |rs|
      invariant 0 <= i <= |rs|
      invariant Histogram(rs[..i], m)
    {
      var size := rs[i].vertices;
      var count := if size in m then m[size] else 0;
      HistogramStep(rs, i, m);
      m := m[size := count + 1];
      i := i + 1;
    }
    assert rs[..i] == rs;
  }

  /** Counting one more record keeps the histogram. */
  lemma HistogramStep(rs: seq<ComponentAnalysis>, i: nat, m: map<nat, nat>)
    requires i < |rs| && Histogram(rs[..i], m)
    ensures var size := rs[i].vertices;
      Histogram(rs[..i + 1], m[size := (if size in m then m[size] else 0) + 1])
  {
    CountPrefixStep(rs, i);
  }

  /** Extending the prefix by one record adds one to its size's count and its size to the keys. */
  lemma CountPrefixStep(rs: seq<ComponentAnalysis>, i: nat)
    requires i < |rs|
    ensures forall s :: CountSize(rs[..i + 1], s) == CountSize(rs[..i], s) + (if rs[i].vertices == s then 1 else 0)
    ensures (set r | r in rs[..i + 1] :: r.vertices) == (set r | r in rs[..i] :: r.vertices) + {rs[i].vertices}
  {
    assert rs[..i + 1] == rs[..i] + [rs[i]];
    forall s {
      CountSnoc(rs[..i], rs[i], s);
    }
  }

  /** The histogram's counts for sizes below `b`. */
  function CountsBelow(rs: seq<ComponentAnalysis>, b: nat): nat {
    if b == 0 then 0 else CountsBelow(rs, b - 1) + CountSize(rs, b - 1)
  }

  /** The histogram's size times count for sizes below `b`. */
  function WeightedBelow(rs: seq<ComponentAnalysis>, b: nat): nat {
    if b == 0 then 0 else WeightedBelow(rs, b - 1) + (b - 1) * CountSize(rs, b - 1)
  }

  lemma CountSnoc(t: seq<ComponentAnalysis>, x: ComponentAnalysis, size: nat)
    ensures CountSize(t + [x], size) == CountSize(t, size) + (if x.vertices == size then 1 else 0)
  {
    assert (t + [x])[..|t + [x]| - 1] == t;
  }

  lemma {:induction false} CountsBelowSnoc(t: seq<ComponentAnalysis>, x: ComponentAnalysis, b: nat)
    ensures CountsBelow(t + [x], b) == CountsBelow(t, b) + (if x.vertices < b then 1 else 0)
  {
    if b > 0 {
      CountsBelowSnoc(t, x, b - 1);
      CountSnoc(t, x, b - 1);
    }
  }

  lemma {:induction false} WeightedBelowSnoc(t: seq<ComponentAnalysis>, x: ComponentAnalysis, b: nat)
    ensures WeightedBelow(t + [x], b) == WeightedBelow(t, b) + (if x.vertices < b then x.vertices else 0)
  {
    if b > 0 {
      WeightedBelowSnoc(t, x, b - 1);
      CountSnoc(t, x, b - 1);
      var c := CountSize(t, b - 1);
      if x.vertices == b - 1 {
        assert (b - 1) * (c + 1) == (b - 1) * c + (b - 1);
      }
    }
  }

  /**
   * When every size is below `b`, the histogram's counts add up to the number
   * of records and size times count adds up to the sum of the sizes.
   */
  lemma {:induction false} HistogramAddsUp(rs: seq<ComponentAnalysis>, b: nat)
    requires forall r :: r in rs ==> r.vertices < b
    ensures CountsBelow(rs, b) == |rs|
    ensures WeightedBelow(rs, b) == Total(rs, Vertices)
    decreases |rs|
  {
    if rs == [] {
      ZeroBelow(b);
    } else {
      var t := rs[..|rs| - 1];
      var x := rs[|rs| - 1];
      assert rs == t + [x];
      assert forall r :: r in t ==> r in rs;
      HistogramAddsUp(t, b);
      CountsBelowSnoc(t, x, b);
      WeightedBelowSnoc(t, x, b);
      TotalAppend(t, x, Vertices);
    }
  }

  lemma {:induction false} ZeroBelow(b: nat)
    ensures CountsBelow([], b) == 0 && WeightedBelow([], b) == 0
  {
    if b > 0 {
      ZeroBelow(b - 1);
    }
  }

  /**
   * On a graph with n nodes, summing the histogram over the sizes 0 .. n
   * gives the number of components, and size times count gives n.
   */
  lemma HistogramOfGraph(adj: Adj)
    requires WellFormed(adj)
    ensures CountsBelow(AnalysisOf(adj), |adj| + 1) == |ComponentsOf(adj)|
    ensures WeightedBelow(AnalysisOf(adj), |adj| + 1) == |adj|
  {
    AnalysisSorted(adj);
    var rs := AnalysisOf(adj);
    forall r | r in rs
      ensures r.vertices < |adj| + 1
    {
      VertexBounded(rs, r);
    }
    HistogramAddsUp(rs, |adj| + 1);
  }

  lemma {:induction false} VertexBounded(rs: seq<ComponentAnalysis>, r: ComponentAnalysis)
    requires r in rs
    ensures r.vertices <= Total(rs, Vertices)
  {
    if rs[0] != r {
      VertexBounded(rs[1..], r);
    }
  }
}
