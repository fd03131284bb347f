/** The relation read as a directed graph: out-neighbours, the depth-first
    cycle check and the acyclicity test built on it. */
module Graph {
  import opened Errors
  import opened Matrices
  import opened ArgumentsCheck
  import opened Predicates
  import opened Paths

  // ---------------------------------------------------------------------
  // Out-neighbours
  // ---------------------------------------------------------------------

  /** The indices of the true entries of a row, in ascending order. */
  function Trues(row: seq<bool>): (e: seq<nat>)
    ensures forall k :: 0 <= k < |e| ==> e[k] < |row| && row[e[k]]
    ensures forall j :: 0 <= j < |row| && row[j] ==> j in e
    ensures forall k, l :: 0 <= k < l < |e| ==> e[k] < e[l]
  {
    if |row| == 0 then []
    else Trues(row[..|row| - 1]) + (if row[|row| - 1] then [|row| - 1] else [])
  }

  lemma {:induction false} FalseRowHasNoTrues(row: seq<bool>)
    requires forall j :: 0 <= j < |row| ==> !row[j]
    ensures Trues(row) == []
  {
    if |row| > 0 {
      FalseRowHasNoTrues(row[..|row| - 1]);
    }
  }

  /** Row `node` of an array, as a value. */
  function RowOf(m: array2<bool>, node: nat): (row: seq<bool>)
    requires node < m.Length0
    reads m
    ensures |row| == m.Length1 && forall j :: 0 <= j < m.Length1 ==> row[j] == m[node, j]
  {
    seq(m.Length1, j requires 0 <= j < m.Length1 reads m => m[node, j])
  }

  /** The out-neighbours of `node`, enumerated eagerly; a node outside the
      row range is rejected. */
  method GetConnectedEdges(m: array2?<bool>, node: int) returns (r: Result<seq<nat>>)
    ensures m == null ==> r == Throws(NullReference)
    ensures m != null && !(0 <= node < m.Length0) ==> r == Throws(ArgumentOutOfRange("node"))
    ensures m != null && 0 <= node < m.Length0 ==> r == Ok(Trues(RowOf(m, node)))
  {
    if m == null { return Throws(NullReference); }
    if node < 0 || node >= m.Length0 { return Throws(ArgumentOutOfRange("node")); }
    ghost var row := RowOf(m, node);
    var edges: seq<nat> := [];
    for i := 0 to m.Length1
      invariant edges == Trues(row[..i])
    {
      assert row[..i + 1][..i] == row[..i];
      if m[node, i] {
        edges := edges + [i];
      }
    }
    assert row[..m.Length1] == row;
    return Ok(edges);
  }

  // ---------------------------------------------------------------------
  // Depth-first cycle check
  // ---------------------------------------------------------------------

  /** The nodes 0 .. n-1. */
  function Nodes(n: nat): (s: set<nat>)
    ensures forall x: nat :: x in s <==> x < n
  {
    if n == 0 then {} else Nodes(n - 1) + {n - 1}
  }

  /** True when the search from `node` meets a node of the current path:
      the node itself, or, through any out-neighbour, with the node added to
      the path. The path grows strictly, so the recursion ends. */
  function HasCycle(c: Relation, node: nat, path: set<nat>): bool
    requires node < |c|
    decreases Nodes(|c|) - path
  {
    node in path ||
    exists child :: child in Trues(c[node]) && HasCycle(c, child, path + {node})
  }

  /** The search as the library runs it on the array: stop at a node of
      the path, otherwise try the out-neighbours in ascending order and stop
      at the first one whose search succeeds. */
  method SearchCycle(m: array2<bool>, node: nat, path: set<nat>) returns (found: bool)
    requires m.Length0 == m.Length1 && node < m.Length0
    ensures found == HasCycle(Cells(m), node, path)
    decreases Nodes(m.Length0) - path
  {
    if node in path { return true; }
    ghost var c := Cells(m);
    var current := path + {node};
    var edges := GetConnectedEdges(m, node);
    assert RowOf(m, node) == c[node];
    var children := edges.value;
    for t := 0 to |children|
      invariant forall s :: 0 <= s < t ==> !HasCycle(c, children[s], current)
    {
      found := SearchCycle(m, children[t], current);
      if found { return true; }
    }
    forall child | child in children ensures !HasCycle(c, child, current) {
      var s :| 0 <= s < |children| && children[s] == child;
    }
    return false;
  }

  /** A sequence of one or more nodes, each related to the next. */
  predicate IsRoute(c: Relation, w: seq<nat>)
  {
    |w| >= 1 &&
    (forall t :: 0 <= t < |w| ==> w[t] < |c|) &&
    (forall t :: 0 <= t < |w| - 1 ==> c[w[t]][w[t + 1]])
  }

  /** The route ends on a node of the path or on one it already passed. */
  predicate Revisits(w: seq<nat>, path: set<nat>)
    requires |w| >= 1
  {
    w[|w| - 1] in path || w[|w| - 1] in w[..|w| - 1]
  }

  lemma {:induction false} HasCycleGivesRoute(c: Relation, node: nat, path: set<nat>)
    requires node < |c| && HasCycle(c, node, path)
    ensures exists w :: IsRoute(c, w) && w[0] == node && Revisits(w, path)
    decreases Nodes(|c|) - path
  {
    if node in path {
      var w: seq<nat> := [node];
      assert IsRoute(c, w) && w[0] == node && Revisits(w, path);
    } else {
      var child :| child in Trues(c[node]) && HasCycle(c, child, path + {node});
      HasCycleGivesRoute(c, child, path + {node});
      var u :| IsRoute(c, u) && u[0] == child && Revisits(u, path + {node});
      var w := [node] + u;
      assert w[1..] == u;
      assert w[..|w| - 1] == [node] + u[..|u| - 1];
      assert IsRoute(c, w) && w[0] == node && Revisits(w, path);
    }
  }

  lemma {:induction false} RouteGivesHasCycle(c: Relation, w: seq<nat>, path: set<nat>)
    requires IsRoute(c, w) && Revisits(w, path)
    ensures HasCycle(c, w[0], path)
    decreases |w|
  {
    if w[0] !in path {
      assert |w| >= 2;
      var u := w[1..];
      assert w[..|w| - 1] == [w[0]] + u[..|u| - 1];
      assert IsRoute(c, u) && Revisits(u, path + {w[0]});
      RouteGivesHasCycle(c, u, path + {w[0]});
      assert w[1] in Trues(c[w[0]]);
    }
  }

  /** HasCycle holds iff some route from the node revisits a node of the
      path or of the route itself. */
  lemma HasCycleMeansRevisit(c: Relation, node: nat, path: set<nat>)
    requires node < |c|
    ensures HasCycle(c, node, path) <==> exists w :: IsRoute(c, w) && w[0] == node && Revisits(w, path)
  {
    if HasCycle(c, node, path) {
      HasCycleGivesRoute(c, node, path);
    }
    if exists w :: IsRoute(c, w) && w[0] == node && Revisits(w, path) {
      var w :| IsRoute(c, w) && w[0] == node && Revisits(w, path);
      RouteGivesHasCycle(c, w, path);
    }
  }

  /** No cycles: no element reaches itself. */
  predicate Acyclic(c: Relation)
  {
    AntiReflexive(ClosureOf(c))
  }

  /** A node that reaches itself starts a search that finds a cycle. */
  lemma CycleIsFound(c: Relation, x: nat)
    requires x < |c| && ClosureOf(c)[x][x]
    ensures HasCycle(c, x, {})
  {
    ClosureMeansWalk(c, x, x);
    var w :| IsWalk(c, w) && w[0] == x && w[|w| - 1] == x;
    assert w[..|w| - 1][0] == x;
    assert IsRoute(c, w) && Revisits(w, {});
    RouteGivesHasCycle(c, w, {});
  }

  /** A search that finds a cycle has a node on it that reaches itself. */
  lemma FoundIsCycle(c: Relation, v: nat)
    requires v < |c| && HasCycle(c, v, {})
    ensures exists x :: 0 <= x < |c| && ClosureOf(c)[x][x]
  {
    HasCycleGivesRoute(c, v, {});
    var w :| IsRoute(c, w) && w[0] == v && Revisits(w, {});
    var t :| 0 <= t < |w| - 1 && w[..|w| - 1][t] == w[|w| - 1];
    var u := RouteTail(c, w, t);
    ClosureMeansWalk(c, w[t], w[t]);
  }

  /** The part of a route from position t on, when it is at least one step
      long, is a walk. */
  lemma RouteTail(c: Relation, w: seq<nat>, t: nat) returns (u: seq<nat>)
    requires IsRoute(c, w) && t < |w| - 1
    ensures IsWalk(c, u) && u[0] == w[t] && u[|u| - 1] == w[|w| - 1]
  {
    u := w[t..];
    assert forall s :: 0 <= s < |u| ==> u[s] == w[t + s];
  }

  /** Started with an empty path from every node, the searches decide
      Acyclic. */
  lemma AcyclicIffNoSearchFindsCycle(c: Relation)
    ensures Acyclic(c) <==> forall v :: 0 <= v < |c| ==> !HasCycle(c, v, {})
  {
    if !Acyclic(c) {
      var x :| 0 <= x < |c| && ClosureOf(c)[x][x];
      CycleIsFound(c, x);
      assert 0 <= x < |c| && HasCycle(c, x, {});
    } else {
      forall v | 0 <= v < |c| ensures !HasCycle(c, v, {}) {
        if HasCycle(c, v, {}) {
          FoundIsCycle(c, v);
          assert false;
        }
      }
    }
  }

  // ---------------------------------------------------------------------
  // IsAcyclic
  // ---------------------------------------------------------------------

  /** Where the start-node loop stops once it has looked at node f - 1:
      at f when node f - 1 has out-neighbours, at n - 1 when it runs out. */
  function SearchStart(c: Relation, f: nat): (s: nat)
    requires 1 <= f && |c| >= 1
    ensures s < |c|
    decreases |c| - f
  {
    if f >= |c| - 1 then |c| - 1
    else if Trues(c[f]) != [] then f + 1
    else SearchStart(c, f + 1)
  }

  /** The start node of the loop as written: node 0 when it has
      out-neighbours; otherwise the loop's post-increment lands one past the
      first node in [1, n-2] with out-neighbours, or on n - 1. */
  function SplitStart(c: Relation): (s: nat)
    requires |c| >= 1
    ensures s < |c|
  {
    if Trues(c[0]) != [] then 0 else SearchStart(c, 1)
  }

  /** The start is one past the first node with out-neighbours. */
  lemma {:induction false} SplitStartSkipsPastFirst(c: Relation, f: nat)
    requires 1 <= f <= |c| - 2 && Trues(c[0]) == [] && Trues(c[f]) != []
    requires forall g :: 1 <= g < f ==> Trues(c[g]) == []
    ensures SplitStart(c) == f + 1
  {
    SearchStartFrom(c, 1, f);
  }

  lemma {:induction false} SearchStartFrom(c: Relation, g: nat, f: nat)
    requires 1 <= g <= f <= |c| - 2 && Trues(c[f]) != []
    requires forall h :: g <= h < f ==> Trues(c[h]) == []
    ensures SearchStart(c, g) == f + 1
    decreases f - g
  {
    if g < f {
      SearchStartFrom(c, g + 1, f);
    }
  }

  /** The loop that moves the start node past childless nodes, given the
      children of node 0; it stops on the node SplitStart names. */
  method SkipChildless(m: array2<bool>, children0: seq<nat>) returns (node: nat)
    requires m.Length0 == m.Length1 && m.Length0 > 0
    requires children0 == Trues(Cells(m)[0])
    ensures node == SplitStart(Cells(m))
  {
    ghost var c := Cells(m);
    node := 0;
    var lastNode := m.Length1 - 1;
    var children := children0;
    while children == []
      invariant 0 <= node <= lastNode
      invariant node == 0 ==> children == Trues(c[0])
      invariant node >= 1 ==> Trues(c[0]) == []
      invariant node >= 1 && children == [] ==> SplitStart(c) == SearchStart(c, node)
      invariant node >= 1 && children != [] ==> SplitStart(c) == node
      decreases lastNode - node
    {
      if node >= lastNode { break; }
      var next := GetConnectedEdges(m, node);
      assert RowOf(m, node) == c[node];
      children := next.value;
      node := node + 1;
    }
  }

  /** IsAcyclic as written: the guard, the start-node loop, then one search
      from the start node. An empty matrix fails in the first neighbour
      enumeration. */
  method IsAcyclic(m: array2?<bool>) returns (r: Result<bool>)
    ensures ThrowIfNull_NotQuad(m).Fail? ==> r == Throws(ThrowIfNull_NotQuad(m).error)
    ensures ThrowIfNull_NotQuad(m).Pass? && m.Length0 == 0 ==> r == Throws(ArgumentOutOfRange("node"))
    ensures ThrowIfNull_NotQuad(m).Pass? && m.Length0 > 0 ==>
      r == Ok(!HasCycle(Cells(m), SplitStart(Cells(m)), {}))
  {
    var guard := ThrowIfNull_NotQuad(m);
    if guard.Fail? { return Throws(guard.error); }
    var first := GetConnectedEdges(m, 0);
    if first.Throws? { return Throws(first.error); }
    assert RowOf(m, 0) == Cells(m)[0];
    var node := SkipChildless(m, first.value);
    var found := SearchCycle(m, node, {});
    return Ok(!found);
  }

  /** The search from one start node misses every cycle it cannot reach:
      with a single self-loop on node 1 of three, node 0 has no
      out-neighbours, the loop lands on node 2, and the relation is
      reported acyclic. */
  lemma SplitStartMissesSelfLoop()
    ensures var c: Relation := [[false, false, false], [false, true, false], [false, false, false]];
      SplitStart(c) == 2 && !HasCycle(c, 2, {}) && !Acyclic(c)
  {
    var c: Relation := [[false, false, false], [false, true, false], [false, false, false]];
    FalseRowHasNoTrues(c[0]);
    FalseRowHasNoTrues(c[2]);
    assert c[1][1];
    assert 1 in Trues(c[1]);
    ClosureContains(c);
    assert ClosureOf(c)[1][1];
  }

  /** Acyclicity decided as intended: a search from every node. */
  method IsAcyclicEveryNode(m: array2?<bool>) returns (r: Result<bool>)
    ensures ThrowIfNull_NotQuad(m).Fail? ==> r == Throws(ThrowIfNull_NotQuad(m).error)
    ensures ThrowIfNull_NotQuad(m).Pass? ==> r == Ok(Acyclic(Cells(m)))
  {
    var guard := ThrowIfNull_NotQuad(m);
    if guard.Fail? { return Throws(guard.error); }
    ghost var c := Cells(m);
    for v := 0 to m.Length0
      invariant forall u :: 0 <= u < v ==> !HasCycle(c, u, {})
    {
      var found := SearchCycle(m, v, {});
      if found {
        AcyclicIffNoSearchFindsCycle(c);
        return Ok(false);
      }
    }
    AcyclicIffNoSearchFindsCycle(c);
    return Ok(true);
  }
}
