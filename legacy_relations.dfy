/** The older single-file copy of the library. Its operations match the
    split files; its acyclicity check picks the start node differently. */
module LegacyRelations {
  import opened Errors
  import opened Matrices
  import opened ArgumentsCheck
  import opened Predicates
  import opened Paths
  import opened Graph

  /** The legacy start-node loop advances until it stands on the last node
      and that node has out-neighbours; past the last node the neighbour
      enumeration throws. So it either searches from n - 1 or throws. */
  method LegacyIsAcyclic(m: array2?<bool>) returns (r: Result<bool>)
    ensures ThrowIfNull_NotQuad(m).Fail? ==> r == Throws(ThrowIfNull_NotQuad(m).error)
    ensures ThrowIfNull_NotQuad(m).Pass? && (m.Length0 == 0 || Trues(Cells(m)[m.Length0 - 1]) == []) ==>
      r == Throws(ArgumentOutOfRange("node"))
    ensures ThrowIfNull_NotQuad(m).Pass? && m.Length0 > 0 && Trues(Cells(m)[m.Length0 - 1]) != [] ==>
      r == Ok(!HasCycle(Cells(m), m.Length0 - 1, {}))
  {
    var guard := ThrowIfNull_NotQuad(m);
    if guard.Fail? { return Throws(guard.error); }
    ghost var c := Cells(m);
    var node := 0;
    var first := GetConnectedEdges(m, node);
    if first.Throws? { return Throws(first.error); }
    var children := first.value;
    assert RowOf(m, 0) == c[0];
    while children == [] || node != m.Length1 - 1
      invariant 0 <= node < m.Length0
      invariant children == Trues(c[node])
      decreases m.Length0 - node
    {
      var next := GetConnectedEdges(m, node + 1);
      if next.Throws? { return Throws(next.error); }
      node := node + 1;
      assert RowOf(m, node) == c[node];
      children := next.value;
    }
    var found := SearchCycle(m, node, {});
    return Ok(!found);
  }

  /** Along a walk of a relation that only relates smaller to larger
      elements, the nodes ascend. */
  lemma {:induction false} AscendingWalk(c: Relation, w: seq<nat>)
    requires forall i, j :: 0 <= i < |c| && 0 <= j < |c| && c[i][j] ==> i < j
    requires IsWalk(c, w)
    ensures w[0] < w[|w| - 1]
    decreases |w|
  {
    if |w| > 2 {
      AscendingWalk(c, w[1..]);
    }
  }

  /** Such a relation has no cycle. */
  lemma AscendingIsAcyclic(c: Relation)
    requires forall i, j :: 0 <= i < |c| && 0 <= j < |c| && c[i][j] ==> i < j
    ensures Acyclic(c)
  {
    forall x | 0 <= x < |c| ensures !ClosureOf(c)[x][x] {
      ClosureMeansWalk(c, x, x);
      if exists w :: IsWalk(c, w) && w[0] == x && w[|w| - 1] == x {
        var w :| IsWalk(c, w) && w[0] == x && w[|w| - 1] == x;
        AscendingWalk(c, w);
      }
    }
  }

  /** The chain 0 -> 1 -> 2 is acyclic, yet its last node has no
      out-neighbours, so the legacy check throws instead of answering. */
  method LegacyThrowsOnChain() returns (c: Relation, r: Result<bool>)
    ensures c == [[false, true, false], [false, false, true], [false, false, false]]
    ensures Acyclic(c) && r == Throws(ArgumentOutOfRange("node"))
  {
    c := [[false, true, false], [false, false, true], [false, false, false]];
    AscendingIsAcyclic(c);
    var m := new bool[3, 3]((i, j) => (i == 0 && j == 1) || (i == 1 && j == 2));
    ghost var cm := Cells(m);
    assert forall i :: 0 <= i < 3 ==> |cm[i]| == 3 && forall j :: 0 <= j < 3 ==> cm[i][j] == c[i][j];
    assert forall i :: 0 <= i < 3 ==> cm[i] == c[i];
    assert cm == c;
    FalseRowHasNoTrues(c[2]);
    r := LegacyIsAcyclic(m);
  }
}
