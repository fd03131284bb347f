/** Generic matrix utilities: fill, row and column access, transpose. */
module MatrixExtensions {
  import opened Errors

  /** A rectangular grid, the value of a `T[,]`. */
  type Grid<T> = seq<seq<T>>

  predicate IsRect<T>(g: Grid<T>, rows: nat, cols: nat)
  {
    |g| == rows && forall i :: 0 <= i < rows ==> |g[i]| == cols
  }

  function GridOf<T>(a: array2<T>): (g: Grid<T>)
    reads a
    ensures IsRect(g, a.Length0, a.Length1)
    ensures forall i, j :: 0 <= i < a.Length0 && 0 <= j < a.Length1 ==> g[i][j] == a[i, j]
  {
    seq(a.Length0, i requires 0 <= i < a.Length0 reads a =>
      seq(a.Length1, j requires 0 <= j < a.Length1 reads a => a[i, j]))
  }

  /** The transpose of a rows-by-cols grid, a cols-by-rows grid. */
  function Transposed<T>(g: Grid<T>, rows: nat, cols: nat): (t: Grid<T>)
    requires IsRect(g, rows, cols)
    ensures IsRect(t, cols, rows)
    ensures forall i, j :: 0 <= i < rows && 0 <= j < cols ==> t[j][i] == g[i][j]
  {
    seq(cols, j requires 0 <= j < cols => seq(rows, i requires 0 <= i < rows => g[i][j]))
  }

  /** Transposing twice gives back the grid. */
  lemma TransposedTwice<T>(g: Grid<T>, rows: nat, cols: nat)
    requires IsRect(g, rows, cols)
    ensures Transposed(Transposed(g, rows, cols), cols, rows) == g
  {
    var t := Transposed(Transposed(g, rows, cols), cols, rows);
    forall i | 0 <= i < rows ensures t[i] == g[i] {
      assert |t[i]| == |g[i]|;
    }
  }

  // ---------------------------------------------------------------------
  // Fill
  // ---------------------------------------------------------------------

  /** Sets every element to `value` in place and returns the same array. */
  method FillVector<T>(a: array?<T>, value: T) returns (r: Result<array<T>>)
    modifies a
    ensures a == null ==> r == Throws(ArgumentNull("array"))
    ensures a != null ==> r == Ok(a) && forall i :: 0 <= i < a.Length ==> a[i] == value
  {
    if a == null { return Throws(ArgumentNull("array")); }
    for i := 0 to a.Length
      invariant forall k :: 0 <= k < i ==> a[k] == value
    {
      a[i] := value;
    }
    return Ok(a);
  }

  /** The 2-D fill writes [0, n) x [0, n) with n the ROW count. With more
      rows than columns it writes row 0 up to its last column and then the
      runtime throws; with more columns the extra columns stay untouched. */
  method FillMatrix<T>(a: array2?<T>, value: T) returns (r: Result<array2<T>>)
    modifies a
    ensures a == null ==> r == Throws(ArgumentNull("array"))
    ensures a != null && (a.Length0 <= a.Length1) ==>
      r == Ok(a) &&
      forall i, j :: 0 <= i < a.Length0 && 0 <= j < a.Length1 ==>
        a[i, j] == if j < a.Length0 then value else old(a[i, j])
    ensures a != null && a.Length1 < a.Length0 ==>
      r == Throws(IndexOutOfRange) &&
      forall i, j :: 0 <= i < a.Length0 && 0 <= j < a.Length1 ==>
        a[i, j] == if i == 0 then value else old(a[i, j])
  {
    if a == null { return Throws(ArgumentNull("array")); }
    var length := a.Length0;
    for i := 0 to length
      invariant i > 0 ==> length <= a.Length1
      invariant forall x, y :: 0 <= x < a.Length0 && 0 <= y < a.Length1 ==>
        a[x, y] == if x < i && y < length then value else old(a[x, y])
    {
      for j := 0 to length
        invariant j <= a.Length1
        invariant forall x, y :: 0 <= x < a.Length0 && 0 <= y < a.Length1 ==>
          a[x, y] == if (x < i && y < length) || (x == i && y < j) then value else old(a[x, y])
      {
        if j >= a.Length1 { return Throws(IndexOutOfRange); }
        a[i, j] := value;
      }
    }
    return Ok(a);
  }

  // ---------------------------------------------------------------------
  // Rows and columns
  // ---------------------------------------------------------------------

  /** Copies row `row` into a new vector of the column count's length. */
  method GetRow<T(0)>(m: array2?<T>, row: int) returns (r: Result<array<T>>)
    ensures m == null ==> r == Throws(NullReference)
    ensures m != null && m.Length1 > 0 && !(0 <= row < m.Length0) ==> r == Throws(IndexOutOfRange)
    ensures m != null && (m.Length1 == 0 || 0 <= row < m.Length0) ==>
      r.Ok? && fresh(r.value) && r.value.Length == m.Length1 &&
      forall i :: 0 <= i < m.Length1 ==> r.value[i] == m[row, i]
  {
    if m == null { return Throws(NullReference); }
    var rowVector := new T[m.Length1];
    for i := 0 to m.Length1
      invariant i > 0 ==> 0 <= row < m.Length0
      invariant forall k :: 0 <= k < i ==> 0 <= row < m.Length0 && rowVector[k] == m[row, k]
    {
      if !(0 <= row < m.Length0) { return Throws(IndexOutOfRange); }
      rowVector[i] := m[row, i];
    }
    return Ok(rowVector);
  }

  /** Copies column `col` into a new vector of the row count's length. */
  method GetCol<T(0)>(m: array2?<T>, col: int) returns (r: Result<array<T>>)
    ensures m == null ==> r == Throws(NullReference)
    ensures m != null && m.Length0 > 0 && !(0 <= col < m.Length1) ==> r == Throws(IndexOutOfRange)
    ensures m != null && (m.Length0 == 0 || 0 <= col < m.Length1) ==>
      r.Ok? && fresh(r.value) && r.value.Length == m.Length0 &&
      forall i :: 0 <= i < m.Length0 ==> r.value[i] == m[i, col]
  {
    if m == null { return Throws(NullReference); }
    var colVector := new T[m.Length0];
    for i := 0 to m.Length0
      invariant i > 0 ==> 0 <= col < m.Length1
      invariant forall k :: 0 <= k < i ==> 0 <= col < m.Length1 && colVector[k] == m[k, col]
    {
      if !(0 <= col < m.Length1) { return Throws(IndexOutOfRange); }
      colVector[i] := m[i, col];
    }
    return Ok(colVector);
  }

  /** Overwrites row `row` with the vector, element by element. Each step
      reads the vector before it stores into the matrix, so a short vector
      leaves the row written up to the vector's length and then throws. */
  method SetRow<T>(m: array2?<T>, row: int, v: array?<T>) returns (r: Result<()>)
    modifies m
    ensures m == null ==> r == Throws(NullReference)
    ensures m != null && m.Length1 > 0 && v == null ==> r == Throws(NullReference) && Untouched(m)
    ensures m != null && m.Length1 > 0 && v != null && !(0 <= row < m.Length0) ==>
      r == Throws(IndexOutOfRange) && Untouched(m)
    ensures m != null && m.Length1 > 0 && v != null && 0 <= row < m.Length0 ==>
      (r.Ok? <==> m.Length1 <= v.Length) && (r.Throws? ==> r.error == IndexOutOfRange) &&
      forall i, j :: 0 <= i < m.Length0 && 0 <= j < m.Length1 ==>
        m[i, j] == if i == row && j < v.Length then v[j] else old(m[i, j])
    ensures m != null && m.Length1 == 0 ==> r == Ok(()) && Untouched(m)
  {
    if m == null { return Throws(NullReference); }
    for i := 0 to m.Length1
      invariant i > 0 ==> v != null && 0 <= row < m.Length0 && i <= v.Length
      invariant forall x, y :: 0 <= x < m.Length0 && 0 <= y < m.Length1 ==>
        m[x, y] == if x == row && y < i then v[y] else old(m[x, y])
    {
      if v == null { return Throws(NullReference); }
      if i >= v.Length { return Throws(IndexOutOfRange); }
      if !(0 <= row < m.Length0) { return Throws(IndexOutOfRange); }
      m[row, i] := v[i];
    }
    return Ok(());
  }

  /** Overwrites column `col` with the vector, as SetRow does for rows. */
  method SetCol<T>(m: array2?<T>, col: int, v: array?<T>) returns (r: Result<()>)
    modifies m
    ensures m == null ==> r == Throws(NullReference)
    ensures m != null && m.Length0 > 0 && v == null ==> r == Throws(NullReference) && Untouched(m)
    ensures m != null && m.Length0 > 0 && v != null && !(0 <= col < m.Length1) ==>
      r == Throws(IndexOutOfRange) && Untouched(m)
    ensures m != null && m.Length0 > 0 && v != null && 0 <= col < m.Length1 ==>
      (r.Ok? <==> m.Length0 <= v.Length) && (r.Throws? ==> r.error == IndexOutOfRange) &&
      forall i, j :: 0 <= i < m.Length0 && 0 <= j < m.Length1 ==>
        m[i, j] == if j == col && i < v.Length then v[i] else old(m[i, j])
    ensures m != null && m.Length0 == 0 ==> r == Ok(()) && Untouched(m)
  {
    if m == null { return Throws(NullReference); }
    for i := 0 to m.Length0
      invariant i > 0 ==> v != null && 0 <= col < m.Length1 && i <= v.Length
      invariant forall x, y :: 0 <= x < m.Length0 && 0 <= y < m.Length1 ==>
        m[x, y] == if y == col && x < i then v[x] else old(m[x, y])
    {
      if v == null { return Throws(NullReference); }
      if i >= v.Length { return Throws(IndexOutOfRange); }
      if !(0 <= col < m.Length1) { return Throws(IndexOutOfRange); }
      m[i, col] := v[i];
    }
    return Ok(());
  }

  /** No cell of the matrix changed. */
  twostate predicate Untouched<T>(m: array2<T>)
    reads m
  {
    forall i, j :: 0 <= i < m.Length0 && 0 <= j < m.Length1 ==> m[i, j] == old(m[i, j])
  }

  // ---------------------------------------------------------------------
  // Transpose
  // ---------------------------------------------------------------------

  /** Transpose as written allocates a rows-by-cols result and stores
      a[i, j] at [j, i]: the stores leave the result's bounds exactly when
      the matrix is not square and neither dimension is zero. */
  predicate TransposeFaults(rows: nat, cols: nat)
  {
    rows != cols && rows > 0 && cols > 0
  }

  method Transpose<T(0)>(a: array2?<T>) returns (r: Result<array2<T>>)
    ensures a == null ==> r == Throws(NullReference)
    ensures a != null && TransposeFaults(a.Length0, a.Length1) ==> r == Throws(IndexOutOfRange)
    ensures a != null && !TransposeFaults(a.Length0, a.Length1) ==>
      r.Ok? && fresh(r.value) && r.value.Length0 == a.Length0 && r.value.Length1 == a.Length1 &&
      forall i, j :: 0 <= i < a.Length0 && 0 <= j < a.Length1 ==> r.value[j, i] == a[i, j]
  {
    if a == null { return Throws(NullReference); }
    var t := new T[a.Length0, a.Length1];
    for i := 0 to a.Length0
      invariant i > 0 && a.Length1 > 0 ==> a.Length1 <= a.Length0 && i <= a.Length1
      invariant forall x, y :: 0 <= x < i && 0 <= y < a.Length1 ==> y < t.Length0 && x < t.Length1 && t[y, x] == a[x, y]
    {
      for j := 0 to a.Length1
        invariant j > 0 ==> j <= a.Length0 && i < a.Length1
        invariant forall x, y :: 0 <= x < i && 0 <= y < a.Length1 ==> y < t.Length0 && x < t.Length1 && t[y, x] == a[x, y]
        invariant forall y :: 0 <= y < j ==> y < t.Length0 && i < t.Length1 && t[y, i] == a[i, y]
      {
        if j >= t.Length0 || i >= t.Length1 { return Throws(IndexOutOfRange); }
        t[j, i] := a[i, j];
      }
    }
    return Ok(t);
  }

  /** A single row of two cells already faults: its transpose needs two
      rows, and the result was allocated with one. */
  lemma OneRowTransposeFaults()
    ensures TransposeFaults(1, 2) && TransposeFaults(2, 1) && !TransposeFaults(2, 2)
  {
  }

  /** Transpose with the result allocated cols-by-rows, as intended: it
      never faults and gives the transposed grid. */
  method TransposeRectangular<T(0)>(a: array2?<T>) returns (r: Result<array2<T>>)
    ensures a == null ==> r == Throws(NullReference)
    ensures a != null ==>
      r.Ok? && fresh(r.value) && r.value.Length0 == a.Length1 && r.value.Length1 == a.Length0 &&
      GridOf(r.value) == Transposed(GridOf(a), a.Length0, a.Length1)
  {
    if a == null { return Throws(NullReference); }
    var t := new T[a.Length1, a.Length0];
    for i := 0 to a.Length0
      invariant forall x, y :: 0 <= x < i && 0 <= y < a.Length1 ==> t[y, x] == a[x, y]
    {
      for j := 0 to a.Length1
        invariant forall x, y :: 0 <= x < i && 0 <= y < a.Length1 ==> t[y, x] == a[x, y]
        invariant forall y :: 0 <= y < j ==> t[y, i] == a[i, y]
      {
        t[j, i] := a[i, j];
      }
    }
    GridsEqual(GridOf(t), Transposed(GridOf(a), a.Length0, a.Length1), a.Length1, a.Length0);
    return Ok(t);
  }

  lemma GridsEqual<T>(g: Grid<T>, h: Grid<T>, rows: nat, cols: nat)
    requires IsRect(g, rows, cols) && IsRect(h, rows, cols)
    requires forall i, j :: 0 <= i < rows && 0 <= j < cols ==> g[i][j] == h[i][j]
    ensures g == h
  {
    forall i | 0 <= i < rows ensures g[i] == h[i] {
      assert |g[i]| == |h[i]|;
    }
  }
}
