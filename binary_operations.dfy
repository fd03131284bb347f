/** Set algebra on two relations of the same size: intersection, union,
    difference, symmetric difference and the boolean (relational) product. */
module BinaryOperations {
  import opened Errors
  import opened Matrices
  import opened ArgumentsCheck

  // ---------------------------------------------------------------------
  // Specification: the cellwise meaning of each operation, on values.
  // ---------------------------------------------------------------------

  function IntersectionOf(x: Relation, y: Relation): (z: Relation)
    requires |x| == |y|
    ensures |z| == |x|
    ensures forall i, j :: 0 <= i < |x| && 0 <= j < |x| ==> z[i][j] == (x[i][j] && y[i][j])
  {
    seq(|x|, i requires 0 <= i < |x| => seq(|x|, j requires 0 <= j < |x| => x[i][j] && y[i][j]))
  }

  function UnionOf(x: Relation, y: Relation): (z: Relation)
    requires |x| == |y|
    ensures |z| == |x|
    ensures forall i, j :: 0 <= i < |x| && 0 <= j < |x| ==> z[i][j] == (x[i][j] || y[i][j])
  {
    seq(|x|, i requires 0 <= i < |x| => seq(|x|, j requires 0 <= j < |x| => x[i][j] || y[i][j]))
  }

  function DifferenceOf(x: Relation, y: Relation): (z: Relation)
    requires |x| == |y|
    ensures |z| == |x|
    ensures forall i, j :: 0 <= i < |x| && 0 <= j < |x| ==> z[i][j] == (x[i][j] && !y[i][j])
  {
    seq(|x|, i requires 0 <= i < |x| => seq(|x|, j requires 0 <= j < |x| => x[i][j] && !y[i][j]))
  }

  function SymmetricDifferenceOf(x: Relation, y: Relation): (z: Relation)
    requires |x| == |y|
    ensures |z| == |x|
    ensures forall i, j :: 0 <= i < |x| && 0 <= j < |x| ==> z[i][j] == (x[i][j] != y[i][j])
  {
    seq(|x|, i requires 0 <= i < |x| => seq(|x|, j requires 0 <= j < |x| => y[i][j] != x[i][j]))
  }

  /** Whether some k below `bound` has x[i][k] and y[k][j]: the value the
      accumulator of the product loop holds after scanning k < bound. */
  function Through(x: Relation, y: Relation, i: nat, j: nat, bound: nat): bool
    requires |x| == |y| && i < |x| && j < |x| && bound <= |x|
  {
    bound > 0 && (Through(x, y, i, j, bound - 1) || (x[i][bound - 1] && y[bound - 1][j]))
  }

  function ProductOf(x: Relation, y: Relation): (z: Relation)
    requires |x| == |y|
    ensures |z| == |x|
    ensures forall i, j :: 0 <= i < |x| && 0 <= j < |x| ==> z[i][j] == Through(x, y, i, j, |x|)
  {
    seq(|x|, i requires 0 <= i < |x| => seq(|x|, j requires 0 <= j < |x| => Through(x, y, i, j, |x|)))
  }

  /** The accumulator holds exactly the disjunction over the k already scanned. */
  lemma {:induction false} ThroughMeansWitness(x: Relation, y: Relation, i: nat, j: nat, bound: nat)
    requires |x| == |y| && i < |x| && j < |x| && bound <= |x|
    ensures Through(x, y, i, j, bound) <==> exists k :: 0 <= k < bound && x[i][k] && y[k][j]
  {
    if bound > 0 {
      ThroughMeansWitness(x, y, i, j, bound - 1);
      if x[i][bound - 1] && y[bound - 1][j] {
        assert 0 <= bound - 1 < bound && x[i][bound - 1] && y[bound - 1][j];
      }
    }
  }

  /** Product(x, y)[i][j] holds iff some k relates i to k in x and k to j in y. */
  lemma ProductMeansComposition(x: Relation, y: Relation, i: nat, j: nat)
    requires |x| == |y| && i < |x| && j < |x|
    ensures ProductOf(x, y)[i][j] <==> exists k :: 0 <= k < |x| && x[i][k] && y[k][j]
  {
    ThroughMeansWitness(x, y, i, j, |x|);
  }

  // ---------------------------------------------------------------------
  // Algebraic facts tying the operations together.
  // ---------------------------------------------------------------------

  /** The symmetric difference is the union of the two differences, as the
      comment in SymmetricDifference says. */
  lemma SymmetricDifferenceIsUnionOfDifferences(x: Relation, y: Relation)
    requires |x| == |y|
    ensures SymmetricDifferenceOf(x, y) == UnionOf(DifferenceOf(x, y), DifferenceOf(y, x))
  {
    Extensionality(SymmetricDifferenceOf(x, y), UnionOf(DifferenceOf(x, y), DifferenceOf(y, x)));
  }

  /** The intersection is the greatest relation contained in both operands. */
  lemma IntersectionIsGreatestLowerBound(x: Relation, y: Relation, z: Relation)
    requires |x| == |y| == |z|
    ensures Subset(IntersectionOf(x, y), x) && Subset(IntersectionOf(x, y), y)
    ensures Subset(z, x) && Subset(z, y) ==> Subset(z, IntersectionOf(x, y))
  {
  }

  /** The union is the least relation containing both operands. */
  lemma UnionIsLeastUpperBound(x: Relation, y: Relation, z: Relation)
    requires |x| == |y| == |z|
    ensures Subset(x, UnionOf(x, y)) && Subset(y, UnionOf(x, y))
    ensures Subset(x, z) && Subset(y, z) ==> Subset(UnionOf(x, y), z)
  {
  }

  /** x splits into the part outside y and the part inside y. */
  lemma DifferencePartitions(x: Relation, y: Relation)
    requires |x| == |y|
    ensures UnionOf(DifferenceOf(x, y), IntersectionOf(x, y)) == x
    ensures IntersectionOf(DifferenceOf(x, y), y) == IntersectionOf(y, Falsity(|x|))
  {
    Extensionality(UnionOf(DifferenceOf(x, y), IntersectionOf(x, y)), x);
    Extensionality(IntersectionOf(DifferenceOf(x, y), y), IntersectionOf(y, Falsity(|x|)));
  }

  /** The empty relation of size n. */
  function Falsity(n: nat): (z: Relation)
    ensures |z| == n && forall i, j :: 0 <= i < n && 0 <= j < n ==> !z[i][j]
  {
    seq(n, i requires 0 <= i < n => seq(n, j requires 0 <= j < n => false))
  }

  // ---------------------------------------------------------------------
  // The operations on arrays, as the library runs them.
  // ---------------------------------------------------------------------

  /** The loops read the second matrix at columns [0, n); the guard only
      compares its row count, so a second matrix with fewer columns makes
      the runtime throw IndexOutOfRangeException. */
  predicate TooNarrow(m1: array2<bool>, m2: array2<bool>)
  {
    0 < m1.Length0 && m2.Length1 < m1.Length0
  }

  /** The second operand seen as an n-by-n relation (columns it lacks read
      as false; they are only used when the operation does not throw). */
  function Operand(m2: array2<bool>, n: nat): (c: Relation)
    requires n <= m2.Length0
    reads m2
    ensures |c| == n
    ensures forall i, j :: 0 <= i < n && 0 <= j < n ==> c[i][j] == (j < m2.Length1 && m2[i, j])
  {
    seq(n, i requires 0 <= i < n reads m2 => seq(n, j requires 0 <= j < n reads m2 => j < m2.Length1 && m2[i, j]))
  }

  method Intersection(m1: array2?<bool>, m2: array2?<bool>) returns (r: Result<array2<bool>>)
    ensures ThrowIfNull_NotQuad_SizeDiffers(m1, m2).Fail? ==> r == Throws(ThrowIfNull_NotQuad_SizeDiffers(m1, m2).error)
    ensures ThrowIfNull_NotQuad_SizeDiffers(m1, m2).Pass? && TooNarrow(m1, m2) ==> r == Throws(IndexOutOfRange)
    ensures ThrowIfNull_NotQuad_SizeDiffers(m1, m2).Pass? && !TooNarrow(m1, m2) ==>
      r.Ok? && fresh(r.value) && r.value.Length0 == r.value.Length1 == m1.Length0 &&
      Cells(r.value) == IntersectionOf(Cells(m1), Operand(m2, m1.Length0))
  {
    var guard := ThrowIfNull_NotQuad_SizeDiffers(m1, m2);
    if guard.Fail? { return Throws(guard.error); }
    var length := m1.Length0;
    var result := new bool[length, length];
    for i := 0 to length
      invariant i > 0 ==> length <= m2.Length1
      invariant forall x, y :: 0 <= x < i && 0 <= y < length ==> result[x, y] == (m1[x, y] && m2[x, y])
    {
      for j := 0 to length
        invariant j <= m2.Length1
        invariant forall x, y :: 0 <= x < i && 0 <= y < length ==> result[x, y] == (m1[x, y] && m2[x, y])
        invariant forall y :: 0 <= y < j ==> result[i, y] == (m1[i, y] && m2[i, y])
      {
        if j >= m2.Length1 { return Throws(IndexOutOfRange); }
        result[i, j] := m1[i, j] && m2[i, j];
      }
    }
    Extensionality(Cells(result), IntersectionOf(Cells(m1), Operand(m2, length)));
    return Ok(result);
  }

  method Union(m1: array2?<bool>, m2: array2?<bool>) returns (r: Result<array2<bool>>)
    ensures ThrowIfNull_NotQuad_SizeDiffers(m1, m2).Fail? ==> r == Throws(ThrowIfNull_NotQuad_SizeDiffers(m1, m2).error)
    ensures ThrowIfNull_NotQuad_SizeDiffers(m1, m2).Pass? && TooNarrow(m1, m2) ==> r == Throws(IndexOutOfRange)
    ensures ThrowIfNull_NotQuad_SizeDiffers(m1, m2).Pass? && !TooNarrow(m1, m2) ==>
      r.Ok? && fresh(r.value) && r.value.Length0 == r.value.Length1 == m1.Length0 &&
      Cells(r.value) == UnionOf(Cells(m1), Operand(m2, m1.Length0))
  {
    var guard := ThrowIfNull_NotQuad_SizeDiffers(m1, m2);
    if guard.Fail? { return Throws(guard.error); }
    var length := m1.Length0;
    var result := new bool[length, length];
    for i := 0 to length
      invariant i > 0 ==> length <= m2.Length1
      invariant forall x, y :: 0 <= x < i && 0 <= y < length ==> result[x, y] == (m1[x, y] || m2[x, y])
    {
      for j := 0 to length
        invariant j <= m2.Length1
        invariant forall x, y :: 0 <= x < i && 0 <= y < length ==> result[x, y] == (m1[x, y] || m2[x, y])
        invariant forall y :: 0 <= y < j ==> result[i, y] == (m1[i, y] || m2[i, y])
      {
        if j >= m2.Length1 { return Throws(IndexOutOfRange); }
        result[i, j] := m1[i, j] || m2[i, j];
      }
    }
    Extensionality(Cells(result), UnionOf(Cells(m1), Operand(m2, length)));
    return Ok(result);
  }

  /** Difference evaluates `m1[i, j] && !m2[i, j]` with a short-circuit, so
      the second matrix is only read where the first one is true. */
  predicate DifferenceFaults(m1: array2<bool>, m2: array2<bool>)
    requires m1.Length0 == m1.Length1
    reads m1
  {
    exists i, j :: 0 <= i < m1.Length0 && m2.Length1 <= j < m1.Length0 && m1[i, j]
  }

  method Difference(m1: array2?<bool>, m2: array2?<bool>) returns (r: Result<array2<bool>>)
    ensures ThrowIfNull_NotQuad_SizeDiffers(m1, m2).Fail? ==> r == Throws(ThrowIfNull_NotQuad_SizeDiffers(m1, m2).error)
    ensures ThrowIfNull_NotQuad_SizeDiffers(m1, m2).Pass? && DifferenceFaults(m1, m2) ==> r == Throws(IndexOutOfRange)
    ensures ThrowIfNull_NotQuad_SizeDiffers(m1, m2).Pass? && !DifferenceFaults(m1, m2) ==>
      r.Ok? && fresh(r.value) && r.value.Length0 == r.value.Length1 == m1.Length0 &&
      Cells(r.value) == DifferenceOf(Cells(m1), Operand(m2, m1.Length0))
  {
    var guard := ThrowIfNull_NotQuad_SizeDiffers(m1, m2);
    if guard.Fail? { return Throws(guard.error); }
    var length := m1.Length0;
    var result := new bool[length, length];
    for i := 0 to length
      invariant forall x, y :: 0 <= x < i && m2.Length1 <= y < length ==> !m1[x, y]
      invariant forall x, y :: 0 <= x < i && 0 <= y < length ==>
        result[x, y] == (m1[x, y] && !(y < m2.Length1 && m2[x, y]))
    {
      for j := 0 to length
        invariant forall x, y :: 0 <= x < i && m2.Length1 <= y < length ==> !m1[x, y]
        invariant forall y :: m2.Length1 <= y < j ==> !m1[i, y]
        invariant forall x, y :: 0 <= x < i && 0 <= y < length ==>
          result[x, y] == (m1[x, y] && !(y < m2.Length1 && m2[x, y]))
        invariant forall y :: 0 <= y < j ==> result[i, y] == (m1[i, y] && !(y < m2.Length1 && m2[i, y]))
      {
        if m1[i, j] {
          if j >= m2.Length1 { return Throws(IndexOutOfRange); }
          result[i, j] := !m2[i, j];
        } else {
          result[i, j] := false;
        }
      }
    }
    Extensionality(Cells(result), DifferenceOf(Cells(m1), Operand(m2, length)));
    return Ok(result);
  }

  method SymmetricDifference(m1: array2?<bool>, m2: array2?<bool>) returns (r: Result<array2<bool>>)
    ensures ThrowIfNull_NotQuad_SizeDiffers(m1, m2).Fail? ==> r == Throws(ThrowIfNull_NotQuad_SizeDiffers(m1, m2).error)
    ensures ThrowIfNull_NotQuad_SizeDiffers(m1, m2).Pass? && TooNarrow(m1, m2) ==> r == Throws(IndexOutOfRange)
    ensures ThrowIfNull_NotQuad_SizeDiffers(m1, m2).Pass? && !TooNarrow(m1, m2) ==>
      r.Ok? && fresh(r.value) && r.value.Length0 == r.value.Length1 == m1.Length0 &&
      Cells(r.value) == SymmetricDifferenceOf(Cells(m1), Operand(m2, m1.Length0))
  {
    var guard := ThrowIfNull_NotQuad_SizeDiffers(m1, m2);
    if guard.Fail? { return Throws(guard.error); }
    var length := m1.Length0;
    var result := new bool[length, length];
    for i := 0 to length
      invariant i > 0 ==> length <= m2.Length1
      invariant forall x, y :: 0 <= x < i && 0 <= y < length ==> result[x, y] == (m2[x, y] != m1[x, y])
    {
      for j := 0 to length
        invariant j <= m2.Length1
        invariant forall x, y :: 0 <= x < i && 0 <= y < length ==> result[x, y] == (m2[x, y] != m1[x, y])
        invariant forall y :: 0 <= y < j ==> result[i, y] == (m2[i, y] != m1[i, y])
      {
        if j >= m2.Length1 { return Throws(IndexOutOfRange); }
        result[i, j] := m2[i, j] != m1[i, j];
      }
    }
    Extensionality(Cells(result), SymmetricDifferenceOf(Cells(m1), Operand(m2, length)));
    return Ok(result);
  }

  method Product(m1: array2?<bool>, m2: array2?<bool>) returns (r: Result<array2<bool>>)
    ensures ThrowIfNull_NotQuad_SizeDiffers(m1, m2).Fail? ==> r == Throws(ThrowIfNull_NotQuad_SizeDiffers(m1, m2).error)
    ensures ThrowIfNull_NotQuad_SizeDiffers(m1, m2).Pass? && TooNarrow(m1, m2) ==> r == Throws(IndexOutOfRange)
    ensures ThrowIfNull_NotQuad_SizeDiffers(m1, m2).Pass? && !TooNarrow(m1, m2) ==>
      r.Ok? && fresh(r.value) && r.value.Length0 == r.value.Length1 == m1.Length0 &&
      Cells(r.value) == ProductOf(Cells(m1), Operand(m2, m1.Length0))
  {
    var guard := ThrowIfNull_NotQuad_SizeDiffers(m1, m2);
    if guard.Fail? { return Throws(guard.error); }
    var length := m1.Length0;
    ghost var x, y := Cells(m1), Operand(m2, length);
    var result := new bool[length, length];
    for i := 0 to length
      invariant i > 0 ==> length <= m2.Length1
      invariant forall a, b :: 0 <= a < i && 0 <= b < length ==> result[a, b] == Through(x, y, a, b, length)
    {
      for j := 0 to length
        invariant j <= m2.Length1
        invariant forall a, b :: 0 <= a < i && 0 <= b < length ==> result[a, b] == Through(x, y, a, b, length)
        invariant forall b :: 0 <= b < j ==> result[i, b] == Through(x, y, i, b, length)
      {
        // the first read of column j, m2[0, j], faults when the column is missing
        if j >= m2.Length1 { return Throws(IndexOutOfRange); }
        var max := false;
        for k := 0 to length
          invariant max == Through(x, y, i, j, k)
        {
          max := max || (m1[i, k] && m2[k, j]);
        }
        result[i, j] := max;
      }
    }
    Extensionality(Cells(result), ProductOf(x, y));
    return Ok(result);
  }
}
