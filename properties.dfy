/** The property checks on arrays: each scan decides one predicate of
    module Predicates, plus the out-neighbour enumeration and the
    depth-first cycle check. */
module Properties {
  import opened Errors
  import opened Matrices
  import opened ArgumentsCheck
  import opened UnaryOperations
  import opened Predicates
  import opened Paths

  // ---------------------------------------------------------------------
  // Scans with early exit
  // ---------------------------------------------------------------------

  method IsTotalRelation(m: array2?<bool>) returns (r: Result<bool>)
    ensures ThrowIfNull_NotQuad(m).Fail? ==> r == Throws(ThrowIfNull_NotQuad(m).error)
    ensures ThrowIfNull_NotQuad(m).Pass? ==> r == Ok(Total(Cells(m)))
  {
    var guard := ThrowIfNull_NotQuad(m);
    if guard.Fail? { return Throws(guard.error); }
    var length := m.Length0;
    for i := 0 to length
      invariant forall x, y :: 0 <= x < i && 0 <= y < length ==> m[x, y]
    {
      for j := 0 to length
        invariant forall y :: 0 <= y < j ==> m[i, y]
      {
        if !m[i, j] { return Ok(false); }
      }
    }
    return Ok(true);
  }

  method IsAntiDiagonalRelation(m: array2?<bool>) returns (r: Result<bool>)
    ensures ThrowIfNull_NotQuad(m).Fail? ==> r == Throws(ThrowIfNull_NotQuad(m).error)
    ensures ThrowIfNull_NotQuad(m).Pass? ==> r == Ok(AntiDiagonal(Cells(m)))
  {
    var guard := ThrowIfNull_NotQuad(m);
    if guard.Fail? { return Throws(guard.error); }
    var length := m.Length0;
    for i := 0 to length
      invariant forall x, y :: 0 <= x < i && 0 <= y < length ==> (m[x, y] <==> x != y)
    {
      for j := 0 to length
        invariant forall y :: 0 <= y < j ==> (m[i, y] <==> i != y)
      {
        if i == j && m[i, j] { return Ok(false); }
        if i != j && !m[i, j] { return Ok(false); }
      }
    }
    return Ok(true);
  }

  method IsDiagonalRelation(m: array2?<bool>) returns (r: Result<bool>)
    ensures ThrowIfNull_NotQuad(m).Fail? ==> r == Throws(ThrowIfNull_NotQuad(m).error)
    ensures ThrowIfNull_NotQuad(m).Pass? ==> r == Ok(Diagonal(Cells(m)))
  {
    var guard := ThrowIfNull_NotQuad(m);
    if guard.Fail? { return Throws(guard.error); }
    var length := m.Length0;
    for i := 0 to length
      invariant forall x, y :: 0 <= x < i && 0 <= y < length ==> (m[x, y] <==> x == y)
    {
      for j := 0 to length
        invariant forall y :: 0 <= y < j ==> (m[i, y] <==> i == y)
      {
        if i == j && !m[i, j] { return Ok(false); }
        if i != j && m[i, j] { return Ok(false); }
      }
    }
    return Ok(true);
  }

  method IsReflexive(m: array2?<bool>) returns (r: Result<bool>)
    ensures ThrowIfNull_NotQuad(m).Fail? ==> r == Throws(ThrowIfNull_NotQuad(m).error)
    ensures ThrowIfNull_NotQuad(m).Pass? ==> r == Ok(Reflexive(Cells(m)))
  {
    var guard := ThrowIfNull_NotQuad(m);
    if guard.Fail? { return Throws(guard.error); }
    var length := m.Length0;
    for i := 0 to length
      invariant forall x :: 0 <= x < i ==> m[x, x]
    {
      for j := 0 to length
        invariant i < j ==> m[i, i]
      {
        if i == j && !m[i, j] { return Ok(false); }
      }
    }
    return Ok(true);
  }

  method IsAntiReflexive(m: array2?<bool>) returns (r: Result<bool>)
    ensures ThrowIfNull_NotQuad(m).Fail? ==> r == Throws(ThrowIfNull_NotQuad(m).error)
    ensures ThrowIfNull_NotQuad(m).Pass? ==> r == Ok(AntiReflexive(Cells(m)))
  {
    var guard := ThrowIfNull_NotQuad(m);
    if guard.Fail? { return Throws(guard.error); }
    var length := m.Length0;
    for i := 0 to length
      invariant forall x :: 0 <= x < i ==> !m[x, x]
    {
      for j := 0 to length
        invariant i < j ==> !m[i, i]
      {
        if i == j && m[i, j] { return Ok(false); }
      }
    }
    return Ok(true);
  }

  method IsSymmetric(m: array2?<bool>) returns (r: Result<bool>)
    ensures ThrowIfNull_NotQuad(m).Fail? ==> r == Throws(ThrowIfNull_NotQuad(m).error)
    ensures ThrowIfNull_NotQuad(m).Pass? ==> r == Ok(Symmetric(Cells(m)))
  {
    var guard := ThrowIfNull_NotQuad(m);
    if guard.Fail? { return Throws(guard.error); }
    var length := m.Length0;
    for i := 0 to length
      invariant forall x, y :: 0 <= x < i && 0 <= y < length && x != y ==> m[x, y] == m[y, x]
    {
      for j := 0 to length
        invariant forall y :: 0 <= y < j && i != y ==> m[i, y] == m[y, i]
      {
        if i != j && m[i, j] != m[j, i] { return Ok(false); }
      }
    }
    return Ok(true);
  }

  method IsAsymmetric(m: array2?<bool>) returns (r: Result<bool>)
    ensures ThrowIfNull_NotQuad(m).Fail? ==> r == Throws(ThrowIfNull_NotQuad(m).error)
    ensures ThrowIfNull_NotQuad(m).Pass? ==> r == Ok(Asymmetric(Cells(m)))
  {
    var guard := ThrowIfNull_NotQuad(m);
    if guard.Fail? { return Throws(guard.error); }
    var length := m.Length0;
    for i := 0 to length
      invariant forall x, y :: 0 <= x < i && 0 <= y < length && x != y ==> !(m[x, y] && m[y, x])
    {
      for j := 0 to length
        invariant forall y :: 0 <= y < j && i != y ==> !(m[i, y] && m[y, i])
      {
        if i != j && m[i, j] {
          if m[j, i] { return Ok(false); }
        }
      }
    }
    return Ok(true);
  }

  method IsAntiSymmetric(m: array2?<bool>) returns (r: Result<bool>)
    ensures ThrowIfNull_NotQuad(m).Fail? ==> r == Throws(ThrowIfNull_NotQuad(m).error)
    ensures ThrowIfNull_NotQuad(m).Pass? ==> r == Ok(AntiSymmetric(Cells(m)))
  {
    var guard := ThrowIfNull_NotQuad(m);
    if guard.Fail? { return Throws(guard.error); }
    var length := m.Length0;
    for i := 0 to length
      invariant forall x, y :: 0 <= x < i && 0 <= y < length && x != y ==> m[x, y] != m[y, x]
    {
      for j := 0 to length
        invariant forall y :: 0 <= y < j && i != y ==> m[i, y] != m[y, i]
      {
        if i != j && m[i, j] == m[j, i] { return Ok(false); }
      }
    }
    return Ok(true);
  }

  method IsTransitive(m: array2?<bool>) returns (r: Result<bool>)
    ensures ThrowIfNull_NotQuad(m).Fail? ==> r == Throws(ThrowIfNull_NotQuad(m).error)
    ensures ThrowIfNull_NotQuad(m).Pass? ==> r == Ok(Transitive(Cells(m)))
  {
    var guard := ThrowIfNull_NotQuad(m);
    if guard.Fail? { return Throws(guard.error); }
    var length := m.Length0;
    for i := 0 to length
      invariant forall x, y, z :: 0 <= x < i && 0 <= y < length && 0 <= z < length && m[x, z] && m[z, y] ==> m[x, y]
    {
      for j := 0 to length
        invariant forall y, z :: 0 <= y < j && 0 <= z < length && m[i, z] && m[z, y] ==> m[i, y]
      {
        for k := 0 to length
          invariant forall z :: 0 <= z < k && m[i, z] && m[z, j] ==> m[i, j]
        {
          if m[i, k] && m[k, j] {
            if !m[i, j] { return Ok(false); }
          }
        }
      }
    }
    return Ok(true);
  }

  /** Transitivity of the complement, computed by complementing and
      scanning the result. */
  method IsNegativeTransitive(m: array2?<bool>) returns (r: Result<bool>)
    ensures ThrowIfNull_NotQuad(m).Fail? ==> r == Throws(ThrowIfNull_NotQuad(m).error)
    ensures ThrowIfNull_NotQuad(m).Pass? ==> r == Ok(NegativeTransitive(Cells(m)))
  {
    var guard := ThrowIfNull_NotQuad(m);
    if guard.Fail? { return Throws(guard.error); }
    var complement := Complementation(m);
    r := IsTransitive(complement.value);
  }

  /** The disjunction the source tests carries a third disjunct,
      m[i, j] && m[j, i], which adds nothing: the scan decides Connex. */
  method IsConnex(m: array2?<bool>) returns (r: Result<bool>)
    ensures ThrowIfNull_NotQuad(m).Fail? ==> r == Throws(ThrowIfNull_NotQuad(m).error)
    ensures ThrowIfNull_NotQuad(m).Pass? ==> r == Ok(Connex(Cells(m)))
  {
    var guard := ThrowIfNull_NotQuad(m);
    if guard.Fail? { return Throws(guard.error); }
    var length := m.Length0;
    for i := 0 to length
      invariant forall x, y :: 0 <= x < i && 0 <= y < length && x != y ==> m[x, y] || m[y, x]
    {
      for j := 0 to length
        invariant forall y :: 0 <= y < j && i != y ==> m[i, y] || m[y, i]
      {
        var forward, backward := m[i, j], m[j, i];
        if i != j && !(forward || backward || (forward && backward)) { return Ok(false); }
      }
    }
    return Ok(true);
  }
}
