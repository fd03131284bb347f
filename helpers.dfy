/** The identity relation builder. */
module Helpers {
  import opened Errors
  import opened Matrices
  import opened ArgumentsCheck
  import opened BinaryOperations
  import opened Predicates
  import opened Closures

  /** The identity relation on n elements. */
  function Identity(n: nat): (z: Relation)
    ensures |z| == n && Diagonal(z)
  {
    seq(n, i requires 0 <= i < n => seq(n, j requires 0 <= j < n => i == j))
  }

  /** Builds the len-by-len identity; a length that is not positive is
      rejected. */
  method GetDiagonalRelation(len: int) returns (r: Result<array2<bool>>)
    ensures len <= 0 ==> r == Throws(ArgumentOutOfRange("len"))
    ensures len > 0 ==>
      r.Ok? && fresh(r.value) && r.value.Length0 == r.value.Length1 == len &&
      Diagonal(Cells(r.value))
  {
    if len <= 0 { return Throws(ArgumentOutOfRange("len")); }
    var matrix := new bool[len, len]((i, j) => false);
    for i := 0 to len
      invariant forall x, y :: 0 <= x < len && 0 <= y < len ==> matrix[x, y] == (x == y && x < i)
    {
      matrix[i, i] := true;
    }
    return Ok(matrix);
  }

  /** The identity of a matrix's size: only the square check guards it, so
      a null matrix fails when its size is read, and an empty one is
      rejected by the length check. */
  method GetDiagonalRelationOf(m: array2?<bool>) returns (r: Result<array2<bool>>)
    ensures m == null ==> r == Throws(NullReference)
    ensures m != null && m.Length0 != m.Length1 ==> r == Throws(ArgumentNull("array1"))
    ensures m != null && m.Length0 == m.Length1 == 0 ==> r == Throws(ArgumentOutOfRange("len"))
    ensures m != null && m.Length0 == m.Length1 > 0 ==>
      r.Ok? && fresh(r.value) && r.value.Length0 == r.value.Length1 == m.Length0 &&
      Cells(r.value) == Identity(m.Length0)
  {
    if m == null { return Throws(NullReference); }
    var quad := ThrowIfNotQuad(m);
    if quad.Fail? { return Throws(quad.error); }
    r := GetDiagonalRelation(m.Length0);
    if r.Ok? {
      Extensionality(Cells(r.value), Identity(m.Length0));
    }
  }

  /** The identity is reflexive and the unit of composition. */
  lemma IdentityIsUnit(c: Relation)
    ensures Reflexive(Identity(|c|))
    ensures ProductOf(c, Identity(|c|)) == c && ProductOf(Identity(|c|), c) == c
  {
    var e := Identity(|c|);
    forall i, j | 0 <= i < |c| && 0 <= j < |c| ensures ProductOf(c, e)[i][j] == c[i][j] && ProductOf(e, c)[i][j] == c[i][j] {
      ProductMeansComposition(c, e, i, j);
      ProductMeansComposition(e, c, i, j);
      if c[i][j] {
        assert c[i][j] && e[j][j];
        assert e[i][i] && c[i][j];
      }
    }
    Extensionality(ProductOf(c, e), c);
    Extensionality(ProductOf(e, c), c);
  }

  /** The reflexive closure is the union with the identity. */
  lemma ReflexiveClosureIsUnionWithIdentity(c: Relation)
    ensures ReflexiveClosureOf(c) == UnionOf(c, Identity(|c|))
  {
    Extensionality(ReflexiveClosureOf(c), UnionOf(c, Identity(|c|)));
  }
}
