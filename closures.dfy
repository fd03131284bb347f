/** Reflexive, symmetric and transitive closures, each computed on a clone
    of the input. None of them has the input in its modifies frame, so the
    input is never written. */
module Closures {
  import opened Errors
  import opened Matrices
  import opened ArgumentsCheck
  import opened Predicates
  import opened Paths

  // ---------------------------------------------------------------------
  // Specification
  // ---------------------------------------------------------------------

  /** The relation with every diagonal cell set. */
  function ReflexiveClosureOf(c: Relation): (z: Relation)
    ensures |z| == |c|
    ensures forall i, j :: 0 <= i < |c| && 0 <= j < |c| ==> z[i][j] == (c[i][j] || i == j)
  {
    seq(|c|, i requires 0 <= i < |c| => seq(|c|, j requires 0 <= j < |c| => c[i][j] || i == j))
  }

  /** The relation joined with its converse. */
  function SymmetricClosureOf(c: Relation): (z: Relation)
    ensures |z| == |c|
    ensures forall i, j :: 0 <= i < |c| && 0 <= j < |c| ==> z[i][j] == (c[i][j] || c[j][i])
  {
    seq(|c|, i requires 0 <= i < |c| => seq(|c|, j requires 0 <= j < |c| => c[i][j] || c[j][i]))
  }

  /** The reflexive closure is the least reflexive relation containing c. */
  lemma ReflexiveClosureLeast(c: Relation, s: Relation)
    requires |s| == |c|
    ensures Reflexive(ReflexiveClosureOf(c)) && Subset(c, ReflexiveClosureOf(c))
    ensures Reflexive(s) && Subset(c, s) ==> Subset(ReflexiveClosureOf(c), s)
  {
    var z := ReflexiveClosureOf(c);
    if Reflexive(s) && Subset(c, s) {
      forall i, j | 0 <= i < |c| && 0 <= j < |c| && z[i][j] ensures s[i][j] {
        if i == j { assert s[i][i]; }
      }
    }
  }

  /** The symmetric closure is the least symmetric relation containing c. */
  lemma SymmetricClosureLeast(c: Relation, s: Relation)
    requires |s| == |c|
    ensures Symmetric(SymmetricClosureOf(c)) && Subset(c, SymmetricClosureOf(c))
    ensures Symmetric(s) && Subset(c, s) ==> Subset(SymmetricClosureOf(c), s)
  {
    var z := SymmetricClosureOf(c);
    if Symmetric(s) && Subset(c, s) {
      forall i, j | 0 <= i < |c| && 0 <= j < |c| && z[i][j] ensures s[i][j] {
        if !c[i][j] {
          assert c[j][i] && s[j][i];
          assert i != j;
        }
      }
    }
  }

  /** A relation equal to its closure is already closed. */
  lemma ClosuresFixClosedRelations(c: Relation)
    ensures ReflexiveClosureOf(c) == c <==> Reflexive(c)
    ensures SymmetricClosureOf(c) == c <==> Symmetric(c)
  {
    if Reflexive(c) { Extensionality(ReflexiveClosureOf(c), c); }
    if ReflexiveClosureOf(c) == c {
      forall i | 0 <= i < |c| ensures c[i][i] { assert ReflexiveClosureOf(c)[i][i]; }
    }
    if Symmetric(c) { Extensionality(SymmetricClosureOf(c), c); }
    if SymmetricClosureOf(c) == c {
      forall i, j | 0 <= i < |c| && 0 <= j < |c| && i != j ensures c[i][j] == c[j][i] {
        assert SymmetricClosureOf(c)[i][j] == c[i][j];
        assert SymmetricClosureOf(c)[j][i] == c[j][i];
      }
    }
  }

  // ---------------------------------------------------------------------
  // The closures on arrays
  // ---------------------------------------------------------------------

  /** Phase k of the closure on row i: each cell of the row may gain the
      path through pivot k, and the row moves from phase k to phase k + 1. */
  method RelaxRow(result: array2<bool>, ghost c: Relation, k: nat, i: nat)
    requires result.Length0 == result.Length1 == |c| && k < |c| && i < |c|
    requires forall x, y :: 0 <= x < |c| && 0 <= y < |c| ==>
      result[x, y] == if x < i then Reach(c, k + 1, x, y) else Reach(c, k, x, y)
    modifies result
    ensures forall x, y :: 0 <= x < |c| && 0 <= y < |c| ==>
      result[x, y] == if x <= i then Reach(c, k + 1, x, y) else Reach(c, k, x, y)
  {
    for j := 0 to result.Length1
      invariant forall x, y :: 0 <= x < |c| && 0 <= y < |c| ==>
        result[x, y] == if x < i || (x == i && y < j) then Reach(c, k + 1, x, y) else Reach(c, k, x, y)
    {
      PivotStable(c, k, i);
      PivotStable(c, k, j);
      result[i, j] := result[i, j] || (result[i, k] && result[k, j]);
    }
  }

  /** Floyd–Warshall, in place on the clone: after phase k every cell holds
      the reachability through intermediate nodes below k+1. */
  method TransitiveClosure(m: array2?<bool>) returns (r: Result<array2<bool>>)
    ensures ThrowIfNull_NotQuad(m).Fail? ==> r == Throws(ThrowIfNull_NotQuad(m).error)
    ensures ThrowIfNull_NotQuad(m).Pass? ==>
      r.Ok? && fresh(r.value) && r.value.Length0 == r.value.Length1 == m.Length0 &&
      Cells(r.value) == ClosureOf(Cells(m))
  {
    var guard := ThrowIfNull_NotQuad(m);
    if guard.Fail? { return Throws(guard.error); }
    var length := m.Length0;
    var result := Clone(m);
    ghost var c := Cells(m);
    for k := 0 to length
      invariant forall x, y :: 0 <= x < length && 0 <= y < length ==> result[x, y] == Reach(c, k, x, y)
    {
      for i := 0 to length
        invariant forall x, y :: 0 <= x < length && 0 <= y < length ==>
          result[x, y] == if x < i then Reach(c, k + 1, x, y) else Reach(c, k, x, y)
      {
        RelaxRow(result, c, k, i);
      }
    }
    Extensionality(Cells(result), ClosureOf(c));
    return Ok(result);
  }

  method ReflexiveClosure(m: array2?<bool>) returns (r: Result<array2<bool>>)
    ensures ThrowIfNull_NotQuad(m).Fail? ==> r == Throws(ThrowIfNull_NotQuad(m).error)
    ensures ThrowIfNull_NotQuad(m).Pass? ==>
      r.Ok? && fresh(r.value) && r.value.Length0 == r.value.Length1 == m.Length0 &&
      Cells(r.value) == ReflexiveClosureOf(Cells(m))
  {
    var guard := ThrowIfNull_NotQuad(m);
    if guard.Fail? { return Throws(guard.error); }
    var length := m.Length0;
    var result := Clone(m);
    for i := 0 to length
      invariant forall x, y :: 0 <= x < length && 0 <= y < length ==>
        result[x, y] == (m[x, y] || (x == y && x < i))
    {
      result[i, i] := true;
    }
    Extensionality(Cells(result), ReflexiveClosureOf(Cells(m)));
    return Ok(result);
  }

  /** Row i of the symmetric closure: every pair (i, j) of the relation
      adds its mirror (j, i), which lands in column i. */
  method MirrorRow(result: array2<bool>, m: array2<bool>, i: nat)
    requires result != m && result.Length0 == result.Length1 == m.Length0 == m.Length1 && i < m.Length0
    requires forall x, y :: 0 <= x < m.Length0 && 0 <= y < m.Length0 ==>
      result[x, y] == (m[x, y] || (y < i && m[y, x]))
    modifies result
    ensures forall x, y :: 0 <= x < m.Length0 && 0 <= y < m.Length0 ==>
      result[x, y] == (m[x, y] || (y <= i && m[y, x]))
  {
    for j := 0 to m.Length0
      invariant forall x, y :: 0 <= x < m.Length0 && 0 <= y < m.Length0 ==>
        result[x, y] == (m[x, y] || ((y < i || (y == i && x < j)) && m[y, x]))
    {
      if result[i, j] {
        result[j, i] := true;
      }
    }
  }

  /** The scan reads cells it has already set: a cell [i, j] with j < i was
      visited as [j, i] earlier and may have been switched on from there.
      Setting it again from its own value changes nothing, so each visited
      pair ends as the union of its two directions. */
  method SymmetricClosure(m: array2?<bool>) returns (r: Result<array2<bool>>)
    ensures ThrowIfNull_NotQuad(m).Fail? ==> r == Throws(ThrowIfNull_NotQuad(m).error)
    ensures ThrowIfNull_NotQuad(m).Pass? ==>
      r.Ok? && fresh(r.value) && r.value.Length0 == r.value.Length1 == m.Length0 &&
      Cells(r.value) == SymmetricClosureOf(Cells(m))
  {
    var guard := ThrowIfNull_NotQuad(m);
    if guard.Fail? { return Throws(guard.error); }
    var length := m.Length0;
    var result := Clone(m);
    for i := 0 to length
      invariant forall x, y :: 0 <= x < length && 0 <= y < length ==>
        result[x, y] == (m[x, y] || (y < i && m[y, x]))
    {
      MirrorRow(result, m, i);
    }
    Extensionality(Cells(result), SymmetricClosureOf(Cells(m)));
    return Ok(result);
  }
}
