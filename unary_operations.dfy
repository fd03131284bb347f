/** Operations on one relation: complement, converse (Reverse), dual and
    narrowing to a block of elements. */
module UnaryOperations {
  import opened Errors
  import opened Matrices
  import opened ArgumentsCheck
  import opened BinaryOperations
  import MatrixExtensions

  // ---------------------------------------------------------------------
  // Specification
  // ---------------------------------------------------------------------

  function ComplementOf(c: Relation): (z: Relation)
    ensures |z| == |c|
    ensures forall i, j :: 0 <= i < |c| && 0 <= j < |c| ==> z[i][j] == !c[i][j]
  {
    seq(|c|, i requires 0 <= i < |c| => seq(|c|, j requires 0 <= j < |c| => !c[i][j]))
  }

  /** The converse relation: j is related to i iff i is related to j. */
  function ReverseOf(c: Relation): (z: Relation)
    ensures |z| == |c|
    ensures forall i, j :: 0 <= i < |c| && 0 <= j < |c| ==> z[j][i] == c[i][j]
  {
    seq(|c|, j requires 0 <= j < |c| => seq(|c|, i requires 0 <= i < |c| => c[i][j]))
  }

  /** The dual: position [j][i] holds the negation of [i][j]. */
  function DualOf(c: Relation): (z: Relation)
    ensures |z| == |c|
    ensures forall i, j :: 0 <= i < |c| && 0 <= j < |c| ==> z[j][i] == !c[i][j]
  {
    seq(|c|, j requires 0 <= j < |c| => seq(|c|, i requires 0 <= i < |c| => !c[i][j]))
  }

  /** Keeps the cells whose row and column both lie in the 1-based range
      [x1, x2]; all other cells become false. */
  function NarrowingOf(c: Relation, x1: int, x2: int): (z: Relation)
    ensures |z| == |c|
    ensures forall i, j :: 0 <= i < |c| && 0 <= j < |c| ==>
      (z[i][j] <==> x1 <= i + 1 <= x2 && x1 <= j + 1 <= x2 && c[i][j])
  {
    seq(|c|, i requires 0 <= i < |c| =>
      seq(|c|, j requires 0 <= j < |c| => i >= x1 - 1 && i <= x2 - 1 && j <= x2 - 1 && j >= x1 - 1 && c[i][j]))
  }

  // ---------------------------------------------------------------------
  // Laws
  // ---------------------------------------------------------------------

  lemma ComplementInvolutive(c: Relation)
    ensures ComplementOf(ComplementOf(c)) == c
  {
    Extensionality(ComplementOf(ComplementOf(c)), c);
  }

  lemma ReverseInvolutive(c: Relation)
    ensures ReverseOf(ReverseOf(c)) == c
  {
    Extensionality(ReverseOf(ReverseOf(c)), c);
  }

  /** The dual is the complement of the converse and the converse of the
      complement, as the documentation of Dual states. */
  lemma DualIsComplementOfReverse(c: Relation)
    ensures DualOf(c) == ComplementOf(ReverseOf(c))
    ensures DualOf(c) == ReverseOf(ComplementOf(c))
  {
    Extensionality(DualOf(c), ComplementOf(ReverseOf(c)));
    Extensionality(DualOf(c), ReverseOf(ComplementOf(c)));
  }

  /** De Morgan: the complement turns union into intersection and back. */
  lemma DeMorgan(x: Relation, y: Relation)
    requires |x| == |y|
    ensures ComplementOf(UnionOf(x, y)) == IntersectionOf(ComplementOf(x), ComplementOf(y))
    ensures ComplementOf(IntersectionOf(x, y)) == UnionOf(ComplementOf(x), ComplementOf(y))
  {
    Extensionality(ComplementOf(UnionOf(x, y)), IntersectionOf(ComplementOf(x), ComplementOf(y)));
    Extensionality(ComplementOf(IntersectionOf(x, y)), UnionOf(ComplementOf(x), ComplementOf(y)));
  }

  /** Difference is intersection with the complement. */
  lemma DifferenceIsIntersectionWithComplement(x: Relation, y: Relation)
    requires |x| == |y|
    ensures DifferenceOf(x, y) == IntersectionOf(x, ComplementOf(y))
  {
    Extensionality(DifferenceOf(x, y), IntersectionOf(x, ComplementOf(y)));
  }

  /** The converse of a composition composes the converses in the other
      order. */
  lemma ReverseOfProduct(x: Relation, y: Relation)
    requires |x| == |y|
    ensures ReverseOf(ProductOf(x, y)) == ProductOf(ReverseOf(y), ReverseOf(x))
  {
    var l, r := ReverseOf(ProductOf(x, y)), ProductOf(ReverseOf(y), ReverseOf(x));
    forall i, j | 0 <= i < |x| && 0 <= j < |x| ensures l[i][j] == r[i][j] {
      ProductMeansComposition(x, y, j, i);
      ProductMeansComposition(ReverseOf(y), ReverseOf(x), i, j);
      if l[i][j] {
        var k :| 0 <= k < |x| && x[j][k] && y[k][i];
        assert ReverseOf(y)[i][k] && ReverseOf(x)[k][j];
      }
      if r[i][j] {
        var k :| 0 <= k < |x| && ReverseOf(y)[i][k] && ReverseOf(x)[k][j];
        assert x[j][k] && y[k][i];
      }
    }
    Extensionality(l, r);
  }

  /** A range covering every element keeps the whole relation. */
  lemma NarrowingFullRangeKeepsAll(c: Relation, x1: int, x2: int)
    requires x1 <= 1 && |c| <= x2
    ensures NarrowingOf(c, x1, x2) == c
  {
    Extensionality(NarrowingOf(c, x1, x2), c);
  }

  /** Narrowing twice narrows to the intersection of the two ranges; in
      particular narrowing is idempotent. */
  lemma NarrowingComposes(c: Relation, x1: int, x2: int, y1: int, y2: int)
    ensures NarrowingOf(NarrowingOf(c, x1, x2), y1, y2)
         == NarrowingOf(c, if x1 < y1 then y1 else x1, if x2 < y2 then x2 else y2)
  {
    Extensionality(NarrowingOf(NarrowingOf(c, x1, x2), y1, y2),
                   NarrowingOf(c, if x1 < y1 then y1 else x1, if x2 < y2 then x2 else y2));
  }

  // ---------------------------------------------------------------------
  // The operations on arrays
  // ---------------------------------------------------------------------

  /** Complementation null-checks only; it sizes the result from the row
      count and reads [0, n) x [0, n), so a matrix with fewer columns than
      rows faults and one with more columns is read through its top-left
      n-by-n window. */
  method Complementation(m: array2?<bool>) returns (r: Result<array2<bool>>)
    ensures m == null ==> r == Throws(ArgumentNull("o"))
    ensures m != null && 0 < m.Length0 && m.Length1 < m.Length0 ==> r == Throws(IndexOutOfRange)
    ensures m != null && (m.Length0 == 0 || m.Length0 <= m.Length1) ==>
      r.Ok? && fresh(r.value) && r.value.Length0 == r.value.Length1 == m.Length0 &&
      Cells(r.value) == ComplementOf(Window(m, m.Length0))
  {
    var nulls := ThrowIfNull([m]);
    if nulls.Fail? { return Throws(nulls.error); }
    assert m != null;
    var length := m.Length0;
    var result := new bool[length, length];
    for i := 0 to length
      invariant i > 0 ==> length <= m.Length1
      invariant forall x, y :: 0 <= x < i && 0 <= y < length ==> result[x, y] == !m[x, y]
    {
      for j := 0 to length
        invariant j <= m.Length1
        invariant forall x, y :: 0 <= x < i && 0 <= y < length ==> result[x, y] == !m[x, y]
        invariant forall y :: 0 <= y < j ==> result[i, y] == !m[i, y]
      {
        if j >= m.Length1 { return Throws(IndexOutOfRange); }
        result[i, j] := !m[i, j];
      }
    }
    Extensionality(Cells(result), ComplementOf(Window(m, length)));
    return Ok(result);
  }

  /** Reverse: the guard, then the transpose. */
  method Reverse<T(0)>(m: array2?<T>) returns (r: Result<array2<T>>)
    ensures ThrowIfNull_NotQuad(m).Fail? ==> r == Throws(ThrowIfNull_NotQuad(m).error)
    ensures ThrowIfNull_NotQuad(m).Pass? ==>
      r.Ok? && fresh(r.value) && r.value.Length0 == r.value.Length1 == m.Length0 &&
      forall i, j :: 0 <= i < m.Length0 && 0 <= j < m.Length0 ==> r.value[j, i] == m[i, j]
  {
    var guard := ThrowIfNull_NotQuad(m);
    if guard.Fail? { return Throws(guard.error); }
    // The library's Transpose, whose fault needs rows != cols, which the
    // square guard has ruled out.
    r := MatrixExtensions.Transpose(m);
  }

  /** On boolean matrices the contract of Reverse is the converse relation. */
  lemma ReverseCells(m: array2<bool>, t: array2<bool>)
    requires m.Length0 == m.Length1 == t.Length0 == t.Length1
    requires forall i, j :: 0 <= i < m.Length0 && 0 <= j < m.Length0 ==> t[j, i] == m[i, j]
    ensures Cells(t) == ReverseOf(Cells(m))
  {
    Extensionality(Cells(t), ReverseOf(Cells(m)));
  }

  method Dual(m: array2?<bool>) returns (r: Result<array2<bool>>)
    ensures ThrowIfNull_NotQuad(m).Fail? ==> r == Throws(ThrowIfNull_NotQuad(m).error)
    ensures ThrowIfNull_NotQuad(m).Pass? ==>
      r.Ok? && fresh(r.value) && r.value.Length0 == r.value.Length1 == m.Length0 &&
      Cells(r.value) == DualOf(Cells(m))
  {
    var guard := ThrowIfNull_NotQuad(m);
    if guard.Fail? { return Throws(guard.error); }
    var length := m.Length0;
    var result := new bool[length, length];
    for i := 0 to length
      invariant forall x, y :: 0 <= x < i && 0 <= y < length ==> result[y, x] == !m[x, y]
    {
      for j := 0 to length
        invariant forall x, y :: 0 <= x < i && 0 <= y < length ==> result[y, x] == !m[x, y]
        invariant forall y :: 0 <= y < j ==> result[y, i] == !m[i, y]
      {
        result[j, i] := !m[i, j];
      }
    }
    Extensionality(Cells(result), DualOf(Cells(m)));
    return Ok(result);
  }

  /** Narrowing rejects x1 > x2 before it looks at the matrix; the range
      itself is not validated against the matrix size. */
  method Narrowing(m: array2?<bool>, x1: int, x2: int) returns (r: Result<array2<bool>>)
    ensures x1 > x2 ==> r == Throws(InvalidOperation)
    ensures x1 <= x2 && ThrowIfNull_NotQuad(m).Fail? ==> r == Throws(ThrowIfNull_NotQuad(m).error)
    ensures x1 <= x2 && ThrowIfNull_NotQuad(m).Pass? ==>
      r.Ok? && fresh(r.value) && r.value.Length0 == r.value.Length1 == m.Length0 &&
      Cells(r.value) == NarrowingOf(Cells(m), x1, x2)
  {
    if x1 > x2 { return Throws(InvalidOperation); }
    var guard := ThrowIfNull_NotQuad(m);
    if guard.Fail? { return Throws(guard.error); }
    var length := m.Length0;
    var result := new bool[length, length];
    var lo, hi := x1 - 1, x2 - 1;
    for i := 0 to length
      invariant forall x, y :: 0 <= x < i && 0 <= y < length ==>
        result[x, y] == (lo <= x <= hi && lo <= y <= hi && m[x, y])
    {
      for j := 0 to length
        invariant forall x, y :: 0 <= x < i && 0 <= y < length ==>
          result[x, y] == (lo <= x <= hi && lo <= y <= hi && m[x, y])
        invariant forall y :: 0 <= y < j ==> result[i, y] == (lo <= i <= hi && lo <= y <= hi && m[i, y])
      {
        result[i, j] := i >= lo && i <= hi && j <= hi && j >= lo && m[i, j];
      }
    }
    Extensionality(Cells(result), NarrowingOf(Cells(m), x1, x2));
    return Ok(result);
  }
}
