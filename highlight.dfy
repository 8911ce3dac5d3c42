/**
 * `findCycleToHighlight`: pick one unicyclic record, search its component
 * depth-first with parent pointers until an entry leads back to an already
 * visited node other than the one just come from, then walk the parent
 * pointers back to that node.
 */
module Highlight {
  import opened Wrappers
  import opened Adjacency
  import opened Edges
  import opened Components
  import opened Analysis
  import opened Aggregates

  /**
   * A node the search has left for good: each of its neighbours is visited,
   * and is either its parent or one of its children.
   */
  ghost predicate Finished(adj: Adj, visited: set<nat>, parent: map<nat, nat>, f: nat) {
    && f < |adj|
    && forall y :: y in adj[f] ==>
         && y in visited
         && ((f in parent && parent[f] == y) || (y in parent && parent[y] == f))
  }

  /** Each parent pointer follows a stored entry from the parent to the child. */
  ghost predicate ParentEdges(adj: Adj, parent: map<nat, nat>) {
    forall k :: k in parent ==> parent[k] < |adj| && k in adj[parent[k]]
  }

  /** Each node of `path` after the first has the node before it as parent. */
  ghost predicate ParentPath(parent: map<nat, nat>, path: seq<nat>) {
    forall i :: 0 < i < |path| ==> path[i] in parent && parent[path[i]] == path[i - 1]
  }

  /**
   * What the search reports with `cycleStart = start` and `cycleEnd = end`:
   * a path of at least three distinct nodes down the parent pointers from
   * `start` to `end`, closed by an entry of `end` that lists `start`.
   */
  ghost predicate CycleChain(adj: Adj, parent: map<nat, nat>, chain: seq<nat>, start: nat, end: nat) {
    && |chain| >= 3
    && Distinct(chain)
    && chain[0] == start
    && chain[|chain| - 1] == end
    && ParentPath(parent, chain)
    && end < |adj| && start in adj[end]
  }

  /** Entries of `parent` stay as they are in `parent'`. */
  ghost predicate Extends(parent: map<nat, nat>, parent': map<nat, nat>) {
    forall k :: k in parent ==> k in parent' && parent'[k] == parent[k]
  }

  /** Pointers stored since the search of `node` began point from new nodes to new nodes. */
  ghost predicate NewPointers(parent: map<nat, nat>, visited: set<nat>, node: nat, parent': map<nat, nat>, visited': set<nat>) {
    forall k :: k in parent' && k !in parent ==>
      k !in visited && k != node && parent'[k] in visited' && parent'[k] !in visited
  }

  /** Every pointer joins two visited nodes along a stored entry. */
  ghost predicate PointersVisited(adj: Adj, parent: map<nat, nat>, visited: set<nat>) {
    && ParentEdges(adj, parent)
    && parent.Keys <= visited
    && forall k :: k in parent ==> parent[k] in visited
  }

  /** Every visited node off the stack is finished. */
  ghost predicate OffStackFinished(adj: Adj, visited: set<nat>, parent: map<nat, nat>, stack: seq<nat>) {
    forall f {:trigger Finished(adj, visited, parent, f)} :: f in visited && f !in stack ==> Finished(adj, visited, parent, f)
  }

  /** The children of `node` so far are among its first `j` entries. */
  ghost predicate ChildrenBefore(adj: Adj, parent: map<nat, nat>, node: nat, j: nat)
    requires node < |adj| && j <= |adj[node]|
  {
    forall c :: c in parent && parent[c] == node ==> c in adj[node][..j]
  }

  /** Each of the first `j` entries of `node` leads to its parent or to a child. */
  ghost predicate HandledBefore(adj: Adj, visited: set<nat>, parent: map<nat, nat>, node: nat, j: nat)
    requires node < |adj| && j <= |adj[node]|
  {
    forall t :: 0 <= t < j ==>
      && adj[node][t] in visited
      && ((node in parent && parent[node] == adj[node][t])
          || (adj[node][t] in parent && parent[adj[node][t]] == node))
  }

  /** What `dfsForCycle(node, parentNode)` may assume on entry. */
  ghost predicate SearchPre(adj: Adj, node: nat, parentNode: Option<nat>, visited: set<nat>, parent: map<nat, nat>,
                            stack: seq<nat>, comp: set<nat>) {
    && WellFormed(adj) && Symmetric(adj) && NoSelfLoops(adj) && NoDuplicates(adj)
    && ClosedSet(adj, comp) && visited <= comp && node in comp
    && node < |adj| && node !in visited
    && stack != [] && stack[|stack| - 1] == node && Distinct(stack)
    && (forall i :: 0 <= i < |stack| - 1 ==> stack[i] in visited)
    && parentNode == (if |stack| == 1 then None else Some(stack[|stack| - 2]))
    && ParentPath(parent, stack) && stack[0] !in parent
    && PointersVisited(adj, parent, visited + {node})
    && (forall k :: k in parent ==> parent[k] in visited)
    && OffStackFinished(adj, visited, parent, stack)
  }

  /**
   * What the search from `node` leaves behind in any case: `node` and only
   * nodes of `comp` are added to the visited set, old pointers stay, and new
   * pointers join new nodes along stored entries.
   */
  ghost predicate Grown(adj: Adj, node: nat, visited: set<nat>, parent: map<nat, nat>, comp: set<nat>,
                        visited': set<nat>, parent': map<nat, nat>) {
    && visited + {node} <= visited' <= comp
    && Extends(parent, parent')
    && NewPointers(parent, visited, node, parent', visited')
    && PointersVisited(adj, parent', visited')
  }

  /** A hit comes with a chain of visited nodes down the parent pointers. */
  ghost predicate HitReported(adj: Adj, parent: map<nat, nat>, visited: set<nat>, chain: seq<nat>, hit: Option<(nat, nat)>) {
    hit.Some? ==>
      && CycleChain(adj, parent, chain, hit.value.0, hit.value.1)
      && forall x :: x in chain ==> x in visited
  }

  /** The invariant of the loop over the entries of `node`, after `j` of them. */
  ghost predicate SearchLoop(adj: Adj, node: nat, visited: set<nat>, parent: map<nat, nat>, stack: seq<nat>,
                             comp: set<nat>, visited': set<nat>, parent': map<nat, nat>, j: nat)
    requires node < |adj| && j <= |adj[node]|
  {
    && Grown(adj, node, visited, parent, comp, visited', parent')
    && stack != [] && ParentPath(parent', stack) && stack[0] !in parent'
    && ChildrenBefore(adj, parent', node, j)
    && HandledBefore(adj, visited', parent', node, j)
    && OffStackFinished(adj, visited', parent', stack)
  }

  lemma FinishedGrows(adj: Adj, visited: set<nat>, parent: map<nat, nat>, visited': set<nat>, parent': map<nat, nat>, f: nat)
    requires Finished(adj, visited, parent, f)
    requires visited <= visited' && Extends(parent, parent')
    ensures Finished(adj, visited', parent', f)
  {
  }

  lemma LoopStart(adj: Adj, node: nat, parentNode: Option<nat>, visited: set<nat>, parent: map<nat, nat>,
                  stack: seq<nat>, comp: set<nat>)
    requires SearchPre(adj, node, parentNode, visited, parent, stack, comp)
    ensures SearchLoop(adj, node, visited, parent, stack, comp, visited + {node}, parent, 0)
  {
    forall f | f in visited + {node} && f !in stack
      ensures Finished(adj, visited + {node}, parent, f)
    {
      FinishedGrows(adj, visited, parent, visited + {node}, parent, f);
    }
  }

  /** Skipping the entry back to the node we came from keeps the invariant. */
  lemma SkipParent(adj: Adj, node: nat, visited: set<nat>, parent: map<nat, nat>, stack: seq<nat>,
                   comp: set<nat>, visited': set<nat>, parent': map<nat, nat>, j: nat)
    requires node < |adj| && j < |adj[node]|
    requires |stack| >= 2 && stack[|stack| - 1] == node && adj[node][j] == stack[|stack| - 2]
    requires SearchLoop(adj, node, visited, parent, stack, comp, visited', parent', j)
    ensures SearchLoop(adj, node, visited, parent, stack, comp, visited', parent', j + 1)
  {
    assert parent'[node] == adj[node][j];
    assert adj[node][j] in visited';
  }

  /**
   * An entry of `node` that leads to a visited node other than the one it was
   * reached from leads to a node at least two steps up the stack.
   */
  lemma FoundOnStack(adj: Adj, visited: set<nat>, parent: map<nat, nat>, stack: seq<nat>, j: nat)
    requires WellFormed(adj) && Symmetric(adj) && NoSelfLoops(adj) && NoDuplicates(adj)
    requires stack != [] && stack[|stack| - 1] < |adj| && j < |adj[stack[|stack| - 1]]|
    requires ParentPath(parent, stack) && stack[0] !in parent
    requires adj[stack[|stack| - 1]][j] in visited
    requires |stack| >= 2 ==> adj[stack[|stack| - 1]][j] != stack[|stack| - 2]
    requires OffStackFinished(adj, visited, parent, stack)
    requires ChildrenBefore(adj, parent, stack[|stack| - 1], j)
    ensures exists i :: 0 <= i <= |stack| - 3 && stack[i] == adj[stack[|stack| - 1]][j]
  {
    var node := stack[|stack| - 1];
    var w := adj[node][j];
    forall t | 0 <= t < j
      ensures adj[node][t] != w
    {
      assert Distinct(adj[node]);
    }
    assert !(w in parent && parent[w] == node);
    assert node in adj[w];
    assert node == stack[0] || |stack| >= 2;
    assert |stack| >= 2 ==> parent[node] == stack[|stack| - 2];
    assert w !in stack ==> Finished(adj, visited, parent, w);
    assert w in stack;
    var i :| 0 <= i < |stack| && stack[i] == w;
    assert w != node;
  }

  /** Pushing a fresh node `w` reached from the top of the stack keeps the stack a parent path. */
  lemma PushPath(parent: map<nat, nat>, stack: seq<nat>, w: nat)
    requires stack != [] && Distinct(stack) && w !in stack
    requires ParentPath(parent, stack) && stack[0] !in parent
    ensures Distinct(stack + [w])
    ensures ParentPath(parent[w := stack[|stack| - 1]], stack + [w])
    ensures stack[0] !in parent[w := stack[|stack| - 1]]
  {
    var p1 := parent[w := stack[|stack| - 1]];
    var s1 := stack + [w];
    forall i, k | 0 <= i < k < |s1| ensures s1[i] != s1[k] {
      if k < |stack| {
        assert s1[i] == stack[i] && s1[k] == stack[k];
      }
    }
    forall i | 0 < i < |s1| ensures s1[i] in p1 && p1[s1[i]] == s1[i - 1] {
      if i < |stack| {
        assert s1[i] == stack[i] && s1[i - 1] == stack[i - 1];
      }
    }
  }

  /** Storing the pointer from a visited node to its neighbour `w` keeps the pointers on stored entries. */
  lemma PushPointer(adj: Adj, parent: map<nat, nat>, visited: set<nat>, node: nat, w: nat, p1: map<nat, nat>)
    requires PointersVisited(adj, parent, visited)
    requires node < |adj| && node in visited && w in adj[node] && p1 == parent[w := node]
    ensures PointersVisited(adj, p1, visited + {w})
    ensures forall k :: k in p1 ==> p1[k] in visited
  {
  }

  /** Storing a pointer for a node not yet visited leaves every finished node finished. */
  lemma PushFinished(adj: Adj, visited: set<nat>, parent: map<nat, nat>, stack: seq<nat>, w: nat, node: nat)
    requires OffStackFinished(adj, visited, parent, stack) && w !in parent
    ensures OffStackFinished(adj, visited, parent[w := node], stack + [w])
  {
    forall f | f in visited && f !in stack + [w]
      ensures Finished(adj, visited, parent[w := node], f)
    {
      assert f !in stack;
      FinishedGrows(adj, visited, parent, visited, parent[w := node], f);
    }
  }

  /** Storing the pointer to a fresh neighbour sets up the recursive search's entry condition. */
  lemma ChildEntry(adj: Adj, node: nat, visited: set<nat>, parent: map<nat, nat>, stack: seq<nat>,
                   comp: set<nat>, visited': set<nat>, parent': map<nat, nat>, j: nat)
    requires WellFormed(adj) && Symmetric(adj) && NoSelfLoops(adj) && NoDuplicates(adj) && ClosedSet(adj, comp)
    requires node < |adj| && j < |adj[node]| && adj[node][j] !in visited'
    requires stack != [] && stack[|stack| - 1] == node && Distinct(stack)
    requires forall i :: 0 <= i < |stack| ==> stack[i] in visited'
    requires SearchLoop(adj, node, visited, parent, stack, comp, visited', parent', j)
    ensures SearchPre(adj, adj[node][j], Some(node), visited', parent'[adj[node][j] := node],
                      stack + [adj[node][j]], comp)
  {
    var w := adj[node][j];
    var s1 := stack + [w];
    assert w !in stack;
    assert w !in parent';
    assert w in comp;
    PushPath(parent', stack, w);
    PushPointer(adj, parent', visited', node, w, parent'[w := node]);
    PushFinished(adj, visited', parent', stack, w, node);
    forall i | 0 <= i < |s1| - 1 ensures s1[i] in visited' {
      assert s1[i] == stack[i];
    }
  }

  /** A recursive search from a fresh neighbour `w` extends what the search from `node` has grown. */
  lemma ChildGrown(adj: Adj, node: nat, visited: set<nat>, parent: map<nat, nat>, comp: set<nat>,
                   visited': set<nat>, parent': map<nat, nat>, w: nat, v2: set<nat>, p2: map<nat, nat>)
    requires node !in visited && w !in visited'
    requires Grown(adj, node, visited, parent, comp, visited', parent')
    requires Grown(adj, w, visited', parent'[w := node], comp, v2, p2)
    ensures Grown(adj, node, visited, parent, comp, v2, p2)
  {
    var p1 := parent'[w := node];
    assert w !in parent';
    forall k | k in p2 && k !in parent
      ensures k !in visited && k != node && p2[k] in v2 && p2[k] !in visited
    {
      if k in parent' {
        assert p2[k] == parent'[k];
      } else if k != w {
        assert k !in visited';
      }
    }
  }

  /** After a recursive search without a hit, the invariant holds for one more entry. */
  lemma ChildDone(adj: Adj, node: nat, visited: set<nat>, parent: map<nat, nat>, stack: seq<nat>,
                  comp: set<nat>, visited': set<nat>, parent': map<nat, nat>, j: nat,
                  v2: set<nat>, p2: map<nat, nat>)
    requires node < |adj| && j < |adj[node]| && adj[node][j] !in visited'
    requires stack != [] && stack[|stack| - 1] == node && node !in visited
    requires forall i :: 0 <= i < |stack| ==> stack[i] in visited'
    requires SearchLoop(adj, node, visited, parent, stack, comp, visited', parent', j)
    requires Grown(adj, adj[node][j], visited', parent'[adj[node][j] := node], comp, v2, p2)
    requires OffStackFinished(adj, v2, p2, stack)
    ensures SearchLoop(adj, node, visited, parent, stack, comp, v2, p2, j + 1)
  {
    var w := adj[node][j];
    var p1 := parent'[w := node];
    ChildGrown(adj, node, visited, parent, comp, visited', parent', w, v2, p2);
    assert w !in parent';
    forall c | c in p2 && p2[c] == node
      ensures c in adj[node][..j + 1]
    {
      if c in p1 {
        if c != w {
          assert c in adj[node][..j];
        }
      }
    }
    forall t | 0 <= t < j + 1
      ensures && adj[node][t] in v2
              && ((node in p2 && p2[node] == adj[node][t])
                  || (adj[node][t] in p2 && p2[adj[node][t]] == node))
    {
      if t < j {
        assert adj[node][t] in visited';
      }
    }
    assert stack[0] in visited';
    assert ParentPath(p2, stack) by {
      forall i | 0 < i < |stack| ensures stack[i] in p2 && p2[stack[i]] == stack[i - 1] {
        assert stack[i] in parent';
      }
    }
  }

  /** An entry leading back up the stack yields the chain from that node down to `node`. */
  lemma FoundChain(adj: Adj, node: nat, visited: set<nat>, parent: map<nat, nat>, stack: seq<nat>,
                   comp: set<nat>, visited': set<nat>, parent': map<nat, nat>, j: nat)
    returns (chain: seq<nat>)
    requires WellFormed(adj) && Symmetric(adj) && NoSelfLoops(adj) && NoDuplicates(adj)
    requires node < |adj| && j < |adj[node]| && adj[node][j] in visited'
    requires stack != [] && stack[|stack| - 1] == node && Distinct(stack)
    requires |stack| >= 2 ==> adj[node][j] != stack[|stack| - 2]
    requires forall i :: 0 <= i < |stack| ==> stack[i] in visited'
    requires SearchLoop(adj, node, visited, parent, stack, comp, visited', parent', j)
    ensures HitReported(adj, parent', visited', chain, Some((adj[node][j], node)))
  {
    FoundOnStack(adj, visited', parent', stack, j);
    var i :| 0 <= i <= |stack| - 3 && stack[i] == adj[node][j];
    chain := stack[i..];
    SuffixChain(adj, parent', stack, i, node);
  }

  /** The stack from an earlier occurrence of a neighbour of its top is a chain closing on that neighbour. */
  lemma SuffixChain(adj: Adj, parent: map<nat, nat>, stack: seq<nat>, i: nat, node: nat)
    requires Distinct(stack) && ParentPath(parent, stack)
    requires i <= |stack| - 3 && stack[|stack| - 1] == node && node < |adj| && stack[i] in adj[node]
    ensures CycleChain(adj, parent, stack[i..], stack[i], node)
    ensures forall x :: x in stack[i..] ==> x in stack
  {
    var chain := stack[i..];
    forall k | 0 < k < |chain| ensures chain[k] in parent && parent[chain[k]] == chain[k - 1] {
      assert chain[k] == stack[i + k] && chain[k - 1] == stack[i + k - 1];
    }
    forall k1, k2 | 0 <= k1 < k2 < |chain| ensures chain[k1] != chain[k2] {
      assert chain[k1] == stack[i + k1] && chain[k2] == stack[i + k2];
    }
  }

  /** The loop over all entries ran out without a hit: `node` is finished too. */
  lemma LoopEnd(adj: Adj, node: nat, visited: set<nat>, parent: map<nat, nat>, stack: seq<nat>,
                comp: set<nat>, visited': set<nat>, parent': map<nat, nat>)
    requires node < |adj| && stack != [] && stack[|stack| - 1] == node
    requires SearchLoop(adj, node, visited, parent, stack, comp, visited', parent', |adj[node]|)
    ensures OffStackFinished(adj, visited', parent', stack[..|stack| - 1])
  {
    forall f | f in visited' && f !in stack[..|stack| - 1]
      ensures Finished(adj, visited', parent', f)
    {
      if f == node {
        forall y | y in adj[node]
          ensures y in visited' && ((node in parent' && parent'[node] == y) || (y in parent' && parent'[y] == node))
        {
          var t :| 0 <= t < |adj[node]| && adj[node][t] == y;
        }
      } else {
        assert stack == stack[..|stack| - 1] + [node];
      }
    }
  }

  /**
   * `dfsForCycle(node, parentNode)`. `stack` is the path of the search from
   * its start down to `node`, and `comp` a set closed under adjacency that
   * holds it. Without a hit, every node visited and no longer on the stack is
   * finished; with a hit `(cycleStart, cycleEnd)`, the parent pointers lead
   * from `cycleEnd` back to `cycleStart` along `chain`.
   */
  method DfsForCycle(adj: Adj, node: nat, parentNode: Option<nat>, visited: set<nat>, parent: map<nat, nat>,
                     ghost stack: seq<nat>, ghost comp: set<nat>)
    returns (hit: Option<(nat, nat)>, visited': set<nat>, parent': map<nat, nat>, ghost chain: seq<nat>)
    requires SearchPre(adj, node, parentNode, visited, parent, stack, comp)
    ensures Grown(adj, node, visited, parent, comp, visited', parent')
    ensures hit.None? ==> OffStackFinished(adj, visited', parent', stack[..|stack| - 1])
    ensures HitReported(adj, parent', visited', chain, hit)
    decreases comp - visited
  {
    visited' := visited + {node};
    parent' := parent;
    chain := [];
    LoopStart(adj, node, parentNode, visited, parent, stack, comp);
    var j := 0;
    while j < |adj[node]|
      invariant j <= |adj[node]|
      invariant SearchLoop(adj, node, visited, parent, stack, comp, visited', parent', j)
      invariant forall i :: 0 <= i < |stack| ==> stack[i] in visited'
    {
      var neighbor := adj[node][j];
      if parentNode.Some? && neighbor == parentNode.value {
        SkipParent(adj, node, visited, parent, stack, comp, visited', parent', j);
      } else if neighbor in visited' {
        chain := FoundChain(adj, node, visited, parent, stack, comp, visited', parent', j);
        hit := Some((neighbor, node));
        return;
      } else {
        ChildEntry(adj, node, visited, parent, stack, comp, visited', parent', j);
        var h, v2, p2, ch := DfsForCycle(adj, neighbor, Some(node), visited', parent'[neighbor := node],
                                         stack + [neighbor], comp);
        if h.Some? {
          ChildGrown(adj, node, visited, parent, comp, visited', parent', neighbor, v2, p2);
          hit, visited', parent', chain := h, v2, p2, ch;
          return;
        }
        ChildDone(adj, node, visited, parent, stack, comp, visited', parent', j, v2, p2);
        visited', parent' := v2, p2;
      }
      j := j + 1;
    }
    LoopEnd(adj, node, visited, parent, stack, comp, visited', parent');
    hit := None;
  }

  /** The edge keys of the parent pointers. */
  ghost function PointerEdges(parent: map<nat, nat>): set<(nat, nat)> {
    set k | k in parent :: Canon(k, parent[k])
  }

  /** There are no more pointer edges than pointers. */
  lemma {:induction false} PointerEdgesSize(parent: map<nat, nat>)
    ensures |PointerEdges(parent)| <= |parent.Keys|
    decreases |parent.Keys|
  {
    if parent.Keys != {} {
      var k :| k in parent.Keys;
      var rest := parent - {k};
      PointerEdgesSize(rest);
      assert parent.Keys == rest.Keys + {k};
      assert PointerEdges(parent) == PointerEdges(rest) + {Canon(k, parent[k])};
    }
  }

  /** The nodes a list holds. */
  ghost function NodeSet(s: seq<nat>): set<nat> {
    set x | x in s
  }

  /** A list has at most as many different nodes as entries. */
  lemma {:induction false} NodeSetSize(s: seq<nat>)
    ensures |NodeSet(s)| <= |s|
    decreases |s|
  {
    if s != [] {
      var init := s[..|s| - 1];
      NodeSetSize(init);
      var last := s[|s| - 1];
      assert s == init + [last];
      assert NodeSet(s) == NodeSet(init) + {last};
    }
  }

  /** A set closed under adjacency that holds the first node of a linked list holds all of it. */
  lemma {:induction false} LinkedInClosed(adj: Adj, c: seq<nat>, s: set<nat>, i: nat)
    requires Linked(adj, c, 0) && i < |c| && c[0] in s && ClosedSet(adj, s)
    ensures c[i] in s
    decreases i
  {
    if i > 0 {
      var j :| 0 <= j < i && c[j] < |adj| && c[i] in adj[c[j]];
      LinkedInClosed(adj, c, s, j);
    }
  }

  /** When every visited node is finished, no entry leads out of the visited set. */
  lemma FinishedClosed(adj: Adj, visited: set<nat>, parent: map<nat, nat>)
    requires OffStackFinished(adj, visited, parent, [])
    ensures ClosedSet(adj, visited)
  {
    forall x, y | x in visited && x < |adj| && y in adj[x] ensures y in visited {
      assert Finished(adj, visited, parent, x);
    }
  }

  /** When every node of `nodes` is visited and finished, every edge among them is a pointer edge. */
  lemma PointersCoverEdges(adj: Adj, nodes: seq<nat>, visited: set<nat>, parent: map<nat, nat>)
    requires forall i :: 0 <= i < |nodes| ==> nodes[i] in visited
    requires OffStackFinished(adj, visited, parent, [])
    ensures ComponentEdges(adj, nodes) <= PointerEdges(parent)
  {
    forall e | e in ComponentEdges(adj, nodes) ensures e in PointerEdges(parent) {
      var k, j :| 0 <= k < |nodes| && nodes[k] < |adj| && 0 <= j < |adj[nodes[k]]| && adj[nodes[k]][j] in nodes
                  && e == Canon(nodes[k], adj[nodes[k]][j]);
      var x, y := nodes[k], adj[nodes[k]][j];
      assert Finished(adj, visited, parent, x);
      if x in parent && parent[x] == y {
        assert e == Canon(x, parent[x]);
      } else {
        assert e == Canon(y, parent[y]);
      }
    }
  }

  /**
   * A search from the first node of a connected component that ends without a
   * hit has finished every node of the component; then every edge inside it is
   * the edge of a parent pointer, so there are fewer edges than nodes.
   */
  lemma NoHitFewEdges(adj: Adj, nodes: seq<nat>, visited: set<nat>, parent: map<nat, nat>)
    requires nodes != [] && Linked(adj, nodes, 0)
    requires nodes[0] in visited && visited <= NodeSet(nodes)
    requires OffStackFinished(adj, visited, parent, [])
    requires parent.Keys <= visited && nodes[0] !in parent
    ensures |ComponentEdges(adj, nodes)| < |nodes|
  {
    FinishedClosed(adj, visited, parent);
    forall i | 0 <= i < |nodes| ensures nodes[i] in visited {
      LinkedInClosed(adj, nodes, visited, i);
    }
    PointersCoverEdges(adj, nodes, visited, parent);
    SubsetSize(ComponentEdges(adj, nodes), PointerEdges(parent));
    PointerEdgesSize(parent);
    SubsetSize(parent.Keys, NodeSet(nodes) - {nodes[0]});
    NodeSetSize(nodes);
  }

  /** The parent walk's output, `[start, end, parent(end), ...]`, is a simple cycle. */
  lemma ChainIsCycle(adj: Adj, parent: map<nat, nat>, chain: seq<nat>)
    requires WellFormed(adj) && Symmetric(adj) && ParentEdges(adj, parent)
    requires |chain| >= 3 && CycleChain(adj, parent, chain, chain[0], chain[|chain| - 1])
    ensures IsSimpleCycle(adj, [chain[0]] + Reverse(chain[1..]))
  {
    var c := [chain[0]] + Reverse(chain[1..]);
    var L := |chain|;
    assert forall m :: 1 <= m < L ==> c[m] == chain[L - m];
    ChainSteps(adj, parent, chain, c);
    assert chain[1] in parent && parent[chain[1]] == chain[0];
    assert c[L - 1] == chain[1];
    forall m1, m2 | 0 <= m1 < m2 < L
      ensures c[m1] != c[m2]
    {
      if m1 == 0 {
        assert c[m2] == chain[L - m2];
      } else {
        assert c[m1] == chain[L - m1] && c[m2] == chain[L - m2];
      }
    }
  }

  /** The reversed chain, led by its first node, is a walk. */
  lemma ChainSteps(adj: Adj, parent: map<nat, nat>, chain: seq<nat>, c: seq<nat>)
    requires WellFormed(adj) && Symmetric(adj) && ParentEdges(adj, parent)
    requires |chain| >= 3 && CycleChain(adj, parent, chain, chain[0], chain[|chain| - 1])
    requires |c| == |chain| && c[0] == chain[0]
    requires forall m :: 1 <= m < |chain| ==> c[m] == chain[|chain| - m]
    ensures IsWalk(adj, c)
  {
    var L := |chain|;
    forall m | 0 <= m < L
      ensures c[m] < |adj|
    {
      if m == 0 {
        assert chain[0] in adj[chain[L - 1]];
      } else {
        var x := chain[L - m];
        assert x in parent && x in adj[parent[x]];
      }
    }
    forall m | 0 <= m < L - 1
      ensures c[m + 1] in adj[c[m]]
    {
      if m == 0 {
        assert chain[L - 1] in adj[chain[0]];
      } else {
        var x := chain[L - m];
        assert parent[x] == chain[L - m - 1];
        assert x in adj[chain[L - m - 1]];
      }
    }
  }

  lemma FilterMembers(s: seq<ComponentAnalysis>, p: ComponentAnalysis -> bool, x: ComponentAnalysis)
    requires x in Filter(s, p)
    ensures x in s && p(x)
  {
    if s[0] != x || !p(s[0]) {
      FilterMembers(s[1..], p, x);
    }
  }

  /** Walking one more parent pointer puts one more chain entry at the end of the reversed tail. */
  lemma ReverseStep(s: seq<nat>, i: nat)
    requires i < |s|
    ensures Reverse(s[i..]) == Reverse(s[i + 1..]) + [s[i]]
  {
    var a := Reverse(s[i..]);
    var b := Reverse(s[i + 1..]) + [s[i]];
    forall k | 0 <= k < |a| ensures a[k] == b[k] {
      if k < |a| - 1 {
        assert b[k] == Reverse(s[i + 1..])[k];
      }
    }
  }

  /** The walk's output is a simple cycle whose nodes all lie in `nodes`. */
  lemma WalkIsCycle(adj: Adj, parent: map<nat, nat>, visited: set<nat>, chain: seq<nat>,
                    hit: (nat, nat), nodes: seq<nat>, c: seq<nat>)
    requires WellFormed(adj) && Symmetric(adj) && PointersVisited(adj, parent, visited)
    requires HitReported(adj, parent, visited, chain, Some(hit))
    requires visited <= set x | x in nodes
    requires c == [chain[0]] + Reverse(chain[1..])
    ensures IsSimpleCycle(adj, c)
    ensures forall x :: x in c ==> x in nodes
  {
    ChainIsCycle(adj, parent, chain);
    forall x | x in c ensures x in nodes {
      var m :| 0 <= m < |c| && c[m] == x;
      if m > 0 {
        assert c[m] == chain[|chain| - m];
      }
      assert x in chain;
    }
  }

  /** The component of an analysis record is a nonempty set of nodes closed under adjacency. */
  lemma ChosenComponent(adj: Adj, r: ComponentAnalysis)
    requires WellFormed(adj) && Symmetric(adj) && r in AnalysisOf(adj)
    ensures r.component != [] && forall x :: x in r.component ==> x < |adj|
    ensures ClosedSet(adj, set x | x in r.component)
  {
    ComponentsArePartition(adj);
    AnalysisRecords(adj);
    var cs := ComponentsOf(adj);
    var k := r.componentId;
    assert r.component == cs[k];
    assert |cs[k]| > 0;
    forall x | x in r.component ensures x < |adj| {
      assert x in cs[k];
    }
  }

  /**
   * The component of an analysis record is connected, and a unicyclic record's
   * component has as many edges as nodes.
   */
  lemma ChosenConnected(adj: Adj, r: ComponentAnalysis)
    requires WellFormed(adj) && r in AnalysisOf(adj)
    ensures Linked(adj, r.component, 0)
    ensures r.isUnicyclic ==> |ComponentEdges(adj, r.component)| == |r.component|
  {
    ComponentsConnected(adj);
    AnalysisRecords(adj);
  }

  /** The search from the first node of a closed component starts in a state meeting its precondition. */
  lemma SearchStart(adj: Adj, nodes: seq<nat>, comp: set<nat>)
    requires WellFormed(adj) && Symmetric(adj) && NoSelfLoops(adj) && NoDuplicates(adj)
    requires nodes != [] && (forall x :: x in nodes ==> x < |adj|)
    requires comp == (set x | x in nodes) && ClosedSet(adj, comp)
    ensures SearchPre(adj, nodes[0], None, {}, map[], [nodes[0]], comp)
  {
    assert nodes[0] in nodes;
  }

  /**
   * The body of `findCycleToHighlight` once a component is chosen: the search
   * from its first node, then the walk from the reporting node up the parent
   * pointers to the node it reported; a cycle found is a simple cycle of
   * nodes of the component.
   */
  method SearchComponent(adj: Adj, componentNodes: seq<nat>) returns (cycle: Option<seq<nat>>)
    requires WellFormed(adj) && Symmetric(adj) && NoSelfLoops(adj) && NoDuplicates(adj)
    requires componentNodes != [] && forall x :: x in componentNodes ==> x < |adj|
    requires ClosedSet(adj, set x | x in componentNodes)
    ensures cycle.Some? ==> IsSimpleCycle(adj, cycle.value)
    ensures cycle.Some? ==> forall x :: x in cycle.value ==> x in componentNodes
    ensures Linked(adj, componentNodes, 0) && |ComponentEdges(adj, componentNodes)| >= |componentNodes| ==> cycle.Some?
  {
    ghost var comp := set x | x in componentNodes;
    SearchStart(adj, componentNodes, comp);
    var startNode := componentNodes[0];
    var hit, visited, parent, chain := DfsForCycle(adj, startNode, None, {}, map[], [startNode], comp);
    if hit.Some? {
      var cycleStart := hit.value.0;
      var c := [cycleStart];
      var current := hit.value.1;
      ghost var idx := |chain| - 1;
      while current != cycleStart
        invariant 0 <= idx < |chain| && current == chain[idx]
        invariant c == [chain[0]] + Reverse(chain[idx + 1..])
        decreases idx
      {
        ReverseStep(chain, idx);
        c := c + [current];
        current := parent[current];
        idx := idx - 1;
      }
      WalkIsCycle(adj, parent, visited, chain, hit.value, componentNodes, c);
      cycle := Some(c);
    } else {
      if Linked(adj, componentNodes, 0) {
        assert [startNode][..0] == [];
        assert comp == NodeSet(componentNodes);
        NoHitFewEdges(adj, componentNodes, visited, parent);
      }
      cycle := None;
    }
  }

  /**
   * `findCycleToHighlight` on the current records, with `Math.random()`
   * replaced by the caller's `pick`: no cycle without a unicyclic record;
   * otherwise the record `pick % count` is searched, and a cycle returned is
   * a simple cycle inside that record's component.
   */
  method FindCycle(adj: Adj, analysis: seq<ComponentAnalysis>, pick: nat) returns (cycle: Option<seq<nat>>)
    requires WellFormed(adj) && Symmetric(adj) && NoSelfLoops(adj) && NoDuplicates(adj)
    requires analysis == AnalysisOf(adj)
    ensures Filter(analysis, Unicyclic) == [] ==> cycle == None
    ensures Filter(analysis, Unicyclic) != [] ==> cycle.Some?
    ensures cycle.Some? ==>
              var uni := Filter(analysis, Unicyclic);
              && uni != []
              && IsSimpleCycle(adj, cycle.value)
              && forall x :: x in cycle.value ==> x in uni[pick % |uni|].component
  {
    var unicyclic := Filter(analysis, Unicyclic);
    if |unicyclic| == 0 {
      return None;
    }
    var chosen := unicyclic[pick % |unicyclic|];
    FilterMembers(analysis, Unicyclic, chosen);
    ChosenComponent(adj, chosen);
    ChosenConnected(adj, chosen);
    var componentNodes := chosen.component;
    cycle := SearchComponent(adj, componentNodes);
  }
}
