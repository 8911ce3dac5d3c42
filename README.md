# randomGraph graph engine in Dafny

This project models the graph-analysis engine of the randomGraph demo. Nodes
are numbered `0 .. n-1`. Each node's neighbour list (`adjList`) grows one
directed entry per `addEdge`. The demo connects two nodes by calling `addEdge`
in both directions. There are two `Graph` classes:

- **`src/graph.ts`**, the current engine, is modelled by module `Engine`.
  - The `Graph` class has the neighbour lists, the two caches and the dirty
    flag as fields.
  - Component discovery is a depth-first search over a `visited` array.
  - Each component gets an analysis record with its distinct edge count,
    cyclomatic number and kind flags. The records are sorted by size.
  - The integer aggregates are computed from the records.
  - It also has a single-cycle finder with a parent-pointer search.

  The functional specifications these methods are proved against live in:
  - `Adjacency`: lists, walks, simple cycles;
  - `Edges`: canonical edge keys and counting;
  - `Components`: the traversal and its partition;
  - `Analysis`: records and the stable sort;
  - `Aggregates`: largest component, cycle total, kind counts, histogram;
  - `Highlight`: the cycle finder.
- **`graph.ts`** at the repository root, the earlier engine, is modelled by module `Legacy`.
  - `findCycles` enumerates simple cycles from every start node.
  - It only extends a path to larger nodes that are not already on it.
  - It removes duplicates through a canonical key. That key, with `rotateToMin`
    and the string comparison, is in module `CycleKeys`.

Main results:
- The imperative `dfs` and `analyzeComponents` compute exactly the functional
  traversal.
- The components partition the nodes. With symmetric lists, they are closed
  under adjacency.
- The records are a stable, size-descending permutation of the discovery-order
  records.
- The cache stays coherent across `addEdge` and the getters.
- The aggregates satisfy their counting identities: the kind counts add up to
  the number of components, and the histogram sums to that number and to `n`.
- Each component is connected: its nodes come in an order in which every node
  after the first is a neighbour of an earlier one, so a walk inside the
  component reaches each node from the first.
- `findCycleToHighlight` returns null exactly when no record is unicyclic.
  Otherwise it returns a simple cycle inside the chosen unicyclic component.
- `findCycles` is sound: every reported cycle is a simple cycle that starts at
  its smallest node.
- `findCycles` reports no key twice.
- `findCycles` is complete: every simple cycle has its canonical key among the
  reported keys.
- The canonical key is the same for a cycle's reverse and for all of its
  rotations.

Two facts about the records, as the code computes them:
- `componentId` is the discovery index assigned before sorting
  (src/graph.ts:204). After the sort it need not equal the record's position.
- A lone node that lists itself has one edge. Its record is then both isolated
  and unicyclic (src/graph.ts:209-212). The one-flag-per-record results
  therefore assume no self-loops, which the demo's caller rules out.

## Model

| member | source | states |
|---|---|---|
| Adjacency.AppendEdge | src/graph.ts:27-28 | `v` is appended to the end of list `u`; every other list and the node count are unchanged |
| Adjacency.AppendEdgeWellFormed | src/graph.ts:27-28 | appending an in-range neighbour keeps every stored entry a valid node index |
| Adjacency.ReverseSnoc | graph.ts:44 | reversing moves an element appended at the end to the front, ahead of the reversed rest |
| Adjacency.ReverseMultiset | graph.ts:44 | reversing keeps every element with its multiplicity |
| Edges.Canon | src/graph.ts:48 | the edge key puts the smaller index first and names the same unordered pair |
| Edges.AppendEdgeKeys | src/graph.ts:42-54 | appending `v` to list `u` adds exactly the key {u, v} to the set of distinct edge keys |
| Edges.RepeatedInsertion | src/graph.ts:42-54 | inserting (u, v) and (v, u) any number of times raises the distinct-edge count by exactly one when the pair is new, and by zero otherwise |
| Edges.PairsSize | src/graph.ts:59-62 | the number of unordered pairs of distinct nodes is n(n-1)/2 |
| Edges.EdgeCountAtMostMax | src/graph.ts:42-62 | without self-loops, the distinct-edge count never exceeds n(n-1)/2 |
| Components.VisitTraversed | src/graph.ts:351-360 | `dfs(v)` appends `v` first, then exactly the newly reached nodes, each once; it grows `visited` by exactly those nodes and leaves no neighbour of an appended node unvisited |
| Components.VisitListTraversed | src/graph.ts:355-359 | the loop over a neighbour list is such a traversal, and it ends with every listed neighbour visited |
| Components.VisitListStep | src/graph.ts:356-358 | one loop iteration skips a visited neighbour, or else visits it, and then continues with the remaining entries |
| Components.ComponentsFromPartition | src/graph.ts:178-184 | the outer loop from any consistent intermediate state ends in a partition of the nodes |
| Components.ComponentsFromClosed | src/graph.ts:178-184 | with symmetric lists, the outer loop ends with every component closed under adjacency |
| Components.ComponentsArePartition | src/graph.ts:172-187 | each node lies in exactly one non-empty, repetition-free component; sizes sum to n; each component starts at its smallest node, and the starts ascend; with symmetric lists, every neighbour of a member is in the same component |
| Components.VisitLinked | src/graph.ts:351-360 | a search from a node that an earlier member lists keeps the component in an order where each node is a neighbour of an earlier one |
| Components.VisitListLinked | src/graph.ts:355-359 | the neighbour loop keeps that order when each listed node is a neighbour of a member |
| Components.ComponentsFromLinked | src/graph.ts:178-184 | every component the outer loop produces is in that order |
| Components.ComponentsConnected | src/graph.ts:177-184 | each component is connected: every node after its first is a neighbour of an earlier node of the same component |
| Components.LinkedWalk | src/graph.ts:351-360 | in such an order, a walk inside the sequence leads from its first node to any of its nodes |
| Components.ComponentWalk | src/graph.ts:177-184 | every node of a component is reached from the component's first node by a walk that stays inside the component |
| Components.SoFarStep | src/graph.ts:179-183 | searching from the smallest unvisited node adds one component and keeps the partition-so-far invariant |
| Analysis.KindsByEdgeCount | src/graph.ts:199-213 | tree iff V > 1 and E <= V-1; unicyclic iff E = V; multicyclic iff E > V; isolated iff V = 1; exactly one flag when V > 0 and a lone vertex has no edge |
| Analysis.SingletonHasNoEdges | src/graph.ts:323-346 | a lone node that does not list itself has no edge inside its component |
| Analysis.RecordOfDiscovery | src/graph.ts:192-213 | each discovery record is for component `componentId`, with that component's distinct in-component edge count, `max(0, E-V+1)` cycles and the four flags; without self-loops, exactly one flag is set |
| Analysis.SortByVerticesPermutes | src/graph.ts:217 | the sort returns a permutation of its input |
| Analysis.SortByVerticesOrders | src/graph.ts:217 | on input with ascending ids, the result is non-increasing by `vertices`, and equal sizes keep discovery order (a stable sort) |
| Analysis.SortByVerticesCorrect | src/graph.ts:217 | the sort is a stable, size-descending permutation |
| Analysis.SortKeepsTotal | src/graph.ts:217 | sorting does not change a sum over the records |
| Analysis.SortKeepsFilter | src/graph.ts:217 | sorting does not change the number of records a filter keeps |
| Analysis.NodesInRecords | src/graph.ts:35-37 | on well-formed lists, the records' `vertices` add up to the number of nodes |
| Analysis.DiscoveryVertices | src/graph.ts:192-194 | the records' `vertices` add up to the components' sizes |
| Analysis.AnalysisSorted | src/graph.ts:172-224 | `componentAnalysis` is a stable, size-sorted permutation of the discovery-order records, one per component, and its `vertices` sum to n |
| Analysis.AnalysisRecords | src/graph.ts:190-217 | every sorted record refers to its discovery-order component by `componentId` and is built from it as `analyzeComponents` builds it; without self-loops, exactly one flag is set |
| Aggregates.GiantComponentSize | src/graph.ts:129-135 | the result bounds every record's `vertices`, is attained by one of them, and is 0 for no records |
| Aggregates.GiantOfSorted | src/graph.ts:129-135 | on size-sorted records, the largest is the first |
| Aggregates.GiantBounds | src/graph.ts:129-135 | no component is larger than `giantComponentSize` |
| Aggregates.GiantReached | src/graph.ts:129-135 | on a non-empty graph some component has exactly that size |
| Aggregates.GiantOfGraph | src/graph.ts:129-135 | `giantComponentSize` is the size of a largest component, and it is positive iff the graph has nodes |
| Aggregates.CyclesByKind | src/graph.ts:140-142 | the cycle total counts each unicyclic record once and each multicyclic record at least twice; it is 0 iff no record is unicyclic or multicyclic |
| Aggregates.TypeCountsAddUp | src/graph.ts:154-166 | with one flag per record, the four filter counts sum to the number of records |
| Aggregates.TypeCountsOfGraph | src/graph.ts:154-166 | without self-loops, the four counts sum to the number of components; the cycle total is the same before and after the sort |
| Aggregates.SizeDistribution | src/graph.ts:306-316 | the histogram's keys are exactly the sizes that occur, each mapped to the positive number of records of that size |
| Aggregates.HistogramStep | src/graph.ts:310-313 | counting one more record keeps the histogram exact |
| Aggregates.HistogramAddsUp | src/graph.ts:306-316 | summed over all sizes, the counts give the number of records, and size times count gives the total of the sizes |
| Aggregates.HistogramOfGraph | src/graph.ts:306-316 | on a graph, the counts sum to the number of components, and the sum of size times count is n |
| Highlight.FoundOnStack | src/graph.ts:268-273 | an already visited neighbour that is not the parent lies on the current search path, at least two steps below the top |
| Highlight.FoundChain | src/graph.ts:268-273 | that hit comes with a chain of at least three distinct nodes, linked by parent pointers, from the neighbour to the current node |
| Highlight.DfsForCycle | src/graph.ts:259-282 | the search only grows `visited` inside the component and `parent` with new edges; a hit is reported with a parent chain that closes a cycle; without a hit, every node it finished has all of its neighbours handled |
| Highlight.FinishedClosed | src/graph.ts:259-282 | when the search has finished every node it visited, no entry leads out of the visited set |
| Highlight.LinkedInClosed | src/graph.ts:256-284 | a set closed under adjacency that holds a component's first node holds the whole component |
| Highlight.PointersCoverEdges | src/graph.ts:263-280 | when every node of the component is finished, every edge inside it is the edge of a parent pointer |
| Highlight.PointerEdgesSize | src/graph.ts:279 | there are no more parent-pointer edges than parent pointers |
| Highlight.NodeSetSize | src/graph.ts:249 | a list holds at most as many different nodes as it has entries |
| Highlight.NoHitFewEdges | src/graph.ts:256-284 | a search of a connected component that ends without a hit means the component has fewer edges than nodes |
| Highlight.ChainIsCycle | src/graph.ts:286-297 | `cycleStart` followed by the nodes met walking the parent pointers from `cycleEnd` is a simple cycle |
| Highlight.WalkIsCycle | src/graph.ts:286-297 | the reconstructed cycle is a simple cycle made of component members |
| Highlight.ChosenComponent | src/graph.ts:242-249 | the chosen record's component is non-empty, made of nodes and, with symmetric lists, closed under adjacency |
| Highlight.ChosenConnected | src/graph.ts:242-249 | the chosen record's component is connected, and a unicyclic record's component has as many edges as nodes |
| Highlight.SearchStart | src/graph.ts:255-284 | the search may start at the component's first node with empty `visited` and `parent` |
| Highlight.SearchComponent | src/graph.ts:249-297 | a returned cycle is a simple cycle made of nodes of the component; a cycle is returned whenever the component is connected and has at least as many edges as nodes |
| Highlight.FindCycle | src/graph.ts:232-299 | null iff no record is unicyclic; otherwise a simple cycle inside the picked unicyclic component |
| Engine.Graph.constructor | src/graph.ts:15-20 | `numNodes` empty neighbour lists, so `nodeCount` is `numNodes`; both caches empty and the dirty flag set |
| Engine.Graph.NodeCount | src/graph.ts:35-37 | the node count, which the component records' sizes add up to |
| Engine.Graph.AddEdge | src/graph.ts:27-30 | `v` is appended to list `u` only, the node count is unchanged, the dirty flag is set, and the cache invariant is kept |
| Engine.Graph.EdgeCount | src/graph.ts:42-54 | the result is the number of distinct unordered pairs {i, j} with `j` in `adjList[i]` |
| Engine.Graph.MaxEdges | src/graph.ts:59-62 | the result is the number of unordered pairs of distinct nodes |
| Engine.Graph.CountComponentEdges | src/graph.ts:323-346 | the result is the number of distinct unordered pairs with both ends in the component |
| Engine.Graph.Dfs | src/graph.ts:351-360 | the marks and the component after the recursive search are those the functional traversal computes |
| Engine.Graph.FindComponents | src/graph.ts:173-184 | the search from every unmarked node in index order returns the components in discovery order |
| Engine.Graph.BuildRecords | src/graph.ts:190-214 | the records in discovery order, each numbered by its discovery index |
| Engine.Graph.AnalyzeComponents | src/graph.ts:172-224 | both caches hold the components and the sorted records of the current lists, and the dirty flag is clear |
| Engine.Graph.GetComponents | src/graph.ts:109-114 | returns the components of the current lists; with a clean flag, both caches stay as they were |
| Engine.Graph.GetComponentAnalysis | src/graph.ts:119-124 | returns the sorted records of the current lists; with a clean flag, both caches stay as they were |
| Engine.Graph.GiantComponent | src/graph.ts:129-135 | the largest `vertices` of the current records |
| Engine.Graph.TotalCycles | src/graph.ts:140-142 | the sum of the records' `cycles` |
| Engine.Graph.TypeCounts | src/graph.ts:154-166 | the four filter counts over the current records |
| Engine.Graph.GetComponentSizeDistribution | src/graph.ts:306-316 | the size histogram of the current records |
| Engine.Graph.FindCycleToHighlight | src/graph.ts:230-300 | null iff no record is unicyclic; otherwise a simple cycle inside the picked unicyclic component |
| CycleKeys.RotateIsSlices | graph.ts:38 | the rotation equals `s.slice(i).concat(s.slice(0, i))` |
| CycleKeys.RotateMultiset | graph.ts:38 | a rotation keeps every element with its multiplicity |
| CycleKeys.MinOf | graph.ts:36 | an element of the array that no element is below |
| CycleKeys.IndexOf | graph.ts:37 | the first position holding the value |
| CycleKeys.RotateToMinSpec | graph.ts:35-39 | `rotateToMin` returns a rotation of its input: the same length and multiset, with a minimum first |
| CycleKeys.NatToStringRoundTrip | graph.ts:45 | a node's decimal text reads back as that node |
| CycleKeys.NatToStringInjective | graph.ts:45 | different nodes have different decimal texts |
| CycleKeys.Join | graph.ts:45-46 | the comma-joined text is empty iff the array is |
| CycleKeys.LexTotal | graph.ts:47 | the string comparison is irreflexive, and exactly one direction holds between different strings |
| CycleKeys.MinKeySymmetric | graph.ts:47 | the smaller of two keys does not depend on their order and is one of them |
| CycleKeys.ReverseReverse | graph.ts:44 | reversing twice gives the original |
| CycleKeys.CanonicalizeReverse | graph.ts:42-48 | a cycle and its reverse get the same key |
| CycleKeys.ReverseRotate | graph.ts:44 | reversing a rotation is rotating the reverse by the complementary amount |
| CycleKeys.MinOfRotate | graph.ts:36 | a rotation has the same minimum |
| CycleKeys.RotateToMinRotate | graph.ts:35-39 | for distinct elements, every rotation has the same `rotateToMin` |
| CycleKeys.CanonicalizeRotate | graph.ts:42-48 | for distinct elements, every rotation gets the same key |
| CycleKeys.RotateSimpleCycle | graph.ts:35-39 | a rotation of a simple cycle is a simple cycle |
| CycleKeys.StrictMinFirst | graph.ts:35-39 | on distinct elements with a minimum first, the first is strictly below all others |
| CycleKeys.MinRotation | graph.ts:35-39 | `rotateToMin` of a simple cycle is a simple cycle whose first node is strictly below the others |
| CycleKeys.CanonicalizeRotateToMin | graph.ts:42-48 | for distinct elements, rotating to the minimum keeps the key |
| Legacy.KeysAppend | graph.ts:56-58 | reporting a cycle adds its key to the keys of the reported cycles |
| Legacy.ReportNew | graph.ts:55-58 | reporting a rooted cycle whose key is new keeps `seen` equal to the reported keys, with no key repeated |
| Legacy.NoReentry | graph.ts:60 | a rooted cycle extending the path never continues with a node on the path, or with a node not above the start |
| Legacy.CoveredChild | graph.ts:60-64 | after the push, the recursive search and the pop, the cycles leaving the path through that neighbour are covered |
| Legacy.CoveredSkip | graph.ts:60 | a neighbour on the path or not above the start leads to no cycle to report |
| Legacy.CoveredAll | graph.ts:52-65 | with every entry of the last node handled, every rooted cycle extending the path has its key in `seen` |
| Legacy.CycleSearch.constructor | graph.ts:29-32 | empty path, no keys seen, no cycles |
| Legacy.CycleSearch.Record | graph.ts:54-59 | the closed path's key joins `seen`; the path is appended to `cycles` iff its key was new |
| Legacy.CycleSearch.Step | graph.ts:53-64 | one neighbour entry: closing a path of three or more reports it; a larger node off the path is pushed, searched and popped; the path is restored, and the cycles through that entry are covered |
| Legacy.CycleSearch.Dfs | graph.ts:51-66 | the path is restored, reports stay consistent, and every rooted cycle from `start` extending the path has its key in `seen` |
| Legacy.Graph.constructor | graph.ts:13-18 | `numNodes` empty neighbour lists |
| Legacy.Graph.AddEdge | graph.ts:20-22 | `v` is appended to list `u`; every other list is unchanged |
| Legacy.Graph.FindCycles | graph.ts:28-73 | every reported cycle is a simple cycle whose first node is strictly its smallest; no two reported cycles share a key; every simple cycle of the graph has its key among the reported keys |

## Left out

- Floating-point statistics are not modelled: `edgeProbability`, `criticalThreshold`, `isAboveGiantComponentThreshold`, `expectedGiantComponentSize`, `componentSizeEntropy` and `calculateEntropy` (src/graph.ts:67-104, src/graph.ts:147-149, src/graph.ts:368-387). They are double-precision numerics with `Math.exp`, `Math.log2` and `Math.round`, and they divide by zero for n <= 1.
- `Math.random` in `findCycleToHighlight` is not modelled. It becomes the caller-supplied parameter `pick`, and the chosen record is the unicyclic record at index `pick % count`.
- Engine.Graph.FindCycleToHighlight: it requires symmetric lists without self-loops or repeated entries. The demo's caller enforces this: it adds each edge in both directions and refuses a second spring between the same two nodes.
  - With a repeated entry the source's walk does not terminate.
  - Example input: adj = [[1,1,2],[0,0],[0,3,4],[2,4],[2,3]], a unicyclic component with five nodes and five edges.
  - `dfsForCycle(0, null)` first visits 1 and comes back. It then meets the second entry 1. Node 0 has no parent to skip, so it reports cycleStart 1 and cycleEnd 0.
  - The walk pushes 0 and then looks up `parent.get(0)`, which is undefined. From then on it never reaches cycleStart.
  - The model does not cover this input.
- Engine.Graph.AddEdge: it requires `v < n` as well as `u < n`. This keeps every entry a node, which all the analyses need. The demo's caller rejects out-of-range indices before calling `addEdge`.
- Legacy.Graph.FindCycles: it requires every stored entry to be a node index. With an out-of-range entry the source would fail when it reads that node's list.
- CycleKeys.Join: it is not proved injective. "No two reported cycles share a key" is therefore stated about the string keys, as the source's `seen` set checks it, and not about the cycles themselves.
- The string edge keys `` `${a}-${b}` `` are modelled as ordered pairs `(min, max)`. Two keys are equal exactly when the pairs are.
- `Array.prototype.sort` is a library call. It is modelled as a stable insertion sort on a sequence, not as an in-place array sort.
- The callers in `src/index.ts`, the UI and DOM helpers (`src/utils.ts`, `utils.ts`, `utils.js`, `src/component-distribution.ts`) and the physics scenes (`index.ts`, `main.ts`) are not part of this model.
- Three loops are their own methods, each with its own contract:
  - the two halves of `analyzeComponents` become `FindComponents` and `BuildRecords`;
  - the search-and-walk of `findCycleToHighlight` becomes `SearchComponent`;
  - the neighbour-loop body of the legacy `dfs` becomes `CycleSearch.Step`, with `CycleSearch.Record` for its report branch.
- The closures of `findCycles` share the `path`, `seen` and `cycles` variables. They are modelled as the fields of a `CycleSearch` object. The key function is a constructor parameter, and the path is the `path` field rather than a third argument.
- `dfsForCycle` is modelled over values (`visited` as a set, `parent` as a map, each returned), not as closure state updated in place.
