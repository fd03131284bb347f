/** Integer vector and matrix arithmetic. Cell values are unbounded
    integers here; the loop counter of MatrixPower is a 32-bit int and its
    wrap-around is modelled. */
module MatrixCommon {
  import opened Errors
  import opened MatrixExtensions

  // ---------------------------------------------------------------------
  // Specification on values
  // ---------------------------------------------------------------------

  /** The rows-by-cols top-left block of an array. */
  function Block(a: array2<int>, rows: nat, cols: nat): (g: Grid<int>)
    requires rows <= a.Length0 && cols <= a.Length1
    reads a
    ensures IsRect(g, rows, cols)
    ensures forall i, j :: 0 <= i < rows && 0 <= j < cols ==> g[i][j] == a[i, j]
  {
    seq(rows, i requires 0 <= i < rows reads a => seq(cols, j requires 0 <= j < cols reads a => a[i, j]))
  }

  /** Sum of a[k] * b[k] over k < n, accumulated from k = 0 upwards. */
  function Dot(a: seq<int>, b: seq<int>, n: nat): int
    requires n <= |a| && n <= |b|
  {
    if n == 0 then 0 else Dot(a, b, n - 1) + a[n - 1] * b[n - 1]
  }

  function Column(g: Grid<int>, j: nat): (col: seq<int>)
    requires forall k :: 0 <= k < |g| ==> j < |g[k]|
    ensures |col| == |g| && forall k :: 0 <= k < |g| ==> col[k] == g[k][j]
  {
    seq(|g|, k requires 0 <= k < |g| => g[k][j])
  }

  function AddOf(g: Grid<int>, h: Grid<int>, rows: nat, cols: nat): (s: Grid<int>)
    requires IsRect(g, rows, cols) && IsRect(h, rows, cols)
    ensures IsRect(s, rows, cols)
    ensures forall i, j :: 0 <= i < rows && 0 <= j < cols ==> s[i][j] == g[i][j] + h[i][j]
  {
    seq(rows, i requires 0 <= i < rows => seq(cols, j requires 0 <= j < cols => g[i][j] + h[i][j]))
  }

  function SubtractOf(g: Grid<int>, h: Grid<int>, rows: nat, cols: nat): (s: Grid<int>)
    requires IsRect(g, rows, cols) && IsRect(h, rows, cols)
    ensures IsRect(s, rows, cols)
    ensures forall i, j :: 0 <= i < rows && 0 <= j < cols ==> s[i][j] == g[i][j] - h[i][j]
  {
    seq(rows, i requires 0 <= i < rows => seq(cols, j requires 0 <= j < cols => g[i][j] - h[i][j]))
  }

  /** Elementwise sum over the first vector's length. */
  function Plus(x: seq<int>, y: seq<int>): (s: seq<int>)
    requires |x| <= |y|
    ensures |s| == |x| && forall i :: 0 <= i < |x| ==> s[i] == x[i] + y[i]
  {
    seq(|x|, i requires 0 <= i < |x| => x[i] + y[i])
  }

  /** Elementwise difference over the first vector's length. */
  function Minus(x: seq<int>, y: seq<int>): (s: seq<int>)
    requires |x| <= |y|
    ensures |s| == |x| && forall i :: 0 <= i < |x| ==> s[i] == x[i] - y[i]
  {
    seq(|x|, i requires 0 <= i < |x| => x[i] - y[i])
  }

  function Negated(x: seq<int>): (s: seq<int>)
    ensures |s| == |x| && forall i :: 0 <= i < |x| ==> s[i] == -x[i]
  {
    seq(|x|, i requires 0 <= i < |x| => -x[i])
  }

  /** Every cell shifted by `value`. */
  function Shifted(g: Grid<int>, rows: nat, cols: nat, value: int): (s: Grid<int>)
    requires IsRect(g, rows, cols)
    ensures IsRect(s, rows, cols)
    ensures forall i, j :: 0 <= i < rows && 0 <= j < cols ==> s[i][j] == g[i][j] + value
  {
    seq(rows, i requires 0 <= i < rows => seq(cols, j requires 0 <= j < cols => g[i][j] + value))
  }

  /** Every cell multiplied by `x`. */
  function Scaled(g: Grid<int>, rows: nat, cols: nat, x: int): (s: Grid<int>)
    requires IsRect(g, rows, cols)
    ensures IsRect(s, rows, cols)
    ensures forall i, j :: 0 <= i < rows && 0 <= j < cols ==> s[i][j] == g[i][j] * x
  {
    seq(rows, i requires 0 <= i < rows => seq(cols, j requires 0 <= j < cols => g[i][j] * x))
  }

  /** The rows-by-p product of a rows-by-n and an n-by-p grid. */
  function MatMul(g: Grid<int>, h: Grid<int>, rows: nat, n: nat, p: nat): (s: Grid<int>)
    requires IsRect(g, rows, n) && IsRect(h, n, p)
    ensures IsRect(s, rows, p)
    ensures forall i, j :: 0 <= i < rows && 0 <= j < p ==> s[i][j] == Dot(g[i], Column(h, j), n)
  {
    seq(rows, i requires 0 <= i < rows => seq(p, j requires 0 <= j < p => Dot(g[i], Column(h, j), n)))
  }

  // ---------------------------------------------------------------------
  // Laws
  // ---------------------------------------------------------------------

  /** Subtracting what was added gives back the matrix. */
  lemma AddSubtractInverse(g: Grid<int>, h: Grid<int>, rows: nat, cols: nat)
    requires IsRect(g, rows, cols) && IsRect(h, rows, cols)
    ensures SubtractOf(AddOf(g, h, rows, cols), h, rows, cols) == g
  {
    GridsEqual(SubtractOf(AddOf(g, h, rows, cols), h, rows, cols), g, rows, cols);
  }

  /** Subtracting what was added gives back the vector. */
  lemma MinusUndoesPlus(x: seq<int>, y: seq<int>)
    requires |x| <= |y|
    ensures Minus(Plus(x, y), y) == x
  {
    assert forall i :: 0 <= i < |x| ==> Minus(Plus(x, y), y)[i] == x[i];
  }

  /** Subtracting is adding the opposite. */
  lemma MinusIsPlusNegated(x: seq<int>, y: seq<int>)
    requires |x| <= |y|
    ensures Minus(x, y) == Plus(x, Negated(y))
  {
    assert forall i :: 0 <= i < |x| ==> Minus(x, y)[i] == Plus(x, Negated(y))[i];
  }

  lemma NegatedInvolutive(x: seq<int>)
    ensures Negated(Negated(x)) == x
  {
    assert forall i :: 0 <= i < |x| ==> Negated(Negated(x))[i] == x[i];
  }

  /** Shifting by `value` and then by its opposite gives back the matrix. */
  lemma ShiftBack(g: Grid<int>, rows: nat, cols: nat, value: int)
    requires IsRect(g, rows, cols)
    ensures Shifted(Shifted(g, rows, cols, value), rows, cols, -value) == g
  {
    GridsEqual(Shifted(Shifted(g, rows, cols, value), rows, cols, -value), g, rows, cols);
  }

  /** Scaling distributes over the cellwise sum. */
  lemma ScaledDistributes(g: Grid<int>, h: Grid<int>, rows: nat, cols: nat, x: int)
    requires IsRect(g, rows, cols) && IsRect(h, rows, cols)
    ensures Scaled(AddOf(g, h, rows, cols), rows, cols, x) ==
            AddOf(Scaled(g, rows, cols, x), Scaled(h, rows, cols, x), rows, cols)
  {
    var l := Scaled(AddOf(g, h, rows, cols), rows, cols, x);
    var r := AddOf(Scaled(g, rows, cols, x), Scaled(h, rows, cols, x), rows, cols);
    forall i, j | 0 <= i < rows && 0 <= j < cols ensures l[i][j] == r[i][j] {
      assert (g[i][j] + h[i][j]) * x == g[i][j] * x + h[i][j] * x;
    }
    GridsEqual(l, r, rows, cols);
  }

  /** The dot product does not depend on the order of its operands. */
  lemma {:induction false} DotCommutes(a: seq<int>, b: seq<int>, n: nat)
    requires n <= |a| && n <= |b|
    ensures Dot(a, b, n) == Dot(b, a, n)
  {
    if n > 0 {
      DotCommutes(a, b, n - 1);
    }
  }

  /** The dot product is linear in its first operand. */
  lemma {:induction false} DotAdds(a: seq<int>, c: seq<int>, b: seq<int>, n: nat)
    requires n <= |a| && n <= |b| && |c| == |a|
    ensures Dot(seq(|a|, i requires 0 <= i < |a| => a[i] + c[i]), b, n) == Dot(a, b, n) + Dot(c, b, n)
  {
    if n > 0 {
      DotAdds(a, c, b, n - 1);
    }
  }

  // ---------------------------------------------------------------------
  // Elementwise operations
  // ---------------------------------------------------------------------

  /** Adds `value` to every cell, into a new matrix. */
  method AddScalar(a: array2<int>, value: int) returns (r: array2<int>)
    ensures fresh(r) && r.Length0 == a.Length0 && r.Length1 == a.Length1
    ensures GridOf(r) == Shifted(GridOf(a), a.Length0, a.Length1, value)
  {
    r := new int[a.Length0, a.Length1];
    for i := 0 to a.Length0
      invariant forall x, y :: 0 <= x < i && 0 <= y < a.Length1 ==> r[x, y] == a[x, y] + value
    {
      for j := 0 to a.Length1
        invariant forall x, y :: 0 <= x < i && 0 <= y < a.Length1 ==> r[x, y] == a[x, y] + value
        invariant forall y :: 0 <= y < j ==> r[i, y] == a[i, y] + value
      {
        r[i, j] := a[i, j] + value;
      }
    }
    GridsEqual(GridOf(r), Shifted(GridOf(a), a.Length0, a.Length1, value), a.Length0, a.Length1);
  }

  /** Adds `value` to every element, into a new vector. */
  method AddScalarToVector(a: array<int>, value: int) returns (r: array<int>)
    ensures fresh(r) && r.Length == a.Length
    ensures forall i :: 0 <= i < a.Length ==> r[i] == a[i] + value
  {
    r := new int[a.Length];
    for i := 0 to a.Length
      invariant forall x :: 0 <= x < i ==> r[x] == a[x] + value
    {
      r[i] := a[i] + value;
    }
  }

  /** Cellwise sum over the first matrix's shape; a second matrix smaller
      in either dimension makes the runtime throw. */
  method AddMatrices(a: array2<int>, b: array2<int>) returns (r: Result<array2<int>>)
    ensures a.Length0 > 0 && a.Length1 > 0 && (b.Length0 < a.Length0 || b.Length1 < a.Length1) ==>
      r == Throws(IndexOutOfRange)
    ensures !(a.Length0 > 0 && a.Length1 > 0 && (b.Length0 < a.Length0 || b.Length1 < a.Length1)) ==>
      r.Ok? && fresh(r.value) && r.value.Length0 == a.Length0 && r.value.Length1 == a.Length1 &&
      (a.Length0 == 0 || a.Length1 == 0 ||
       GridOf(r.value) == AddOf(GridOf(a), Block(b, a.Length0, a.Length1), a.Length0, a.Length1))
  {
    var rows, cols := a.Length0, a.Length1;
    // The runtime throws at the first read of b out of its bounds; the
    // partly filled result is then dropped, so checking first is the same.
    if rows > 0 && cols > 0 && (b.Length0 < rows || b.Length1 < cols) {
      return Throws(IndexOutOfRange);
    }
    var s := new int[rows, cols];
    for i := 0 to rows
      invariant forall x, y :: 0 <= x < i && 0 <= y < cols ==> s[x, y] == a[x, y] + b[x, y]
    {
      for j := 0 to cols
        invariant forall x, y :: 0 <= x < i && 0 <= y < cols ==> s[x, y] == a[x, y] + b[x, y]
        invariant forall y :: 0 <= y < j ==> s[i, y] == a[i, y] + b[i, y]
      {
        s[i, j] := a[i, j] + b[i, j];
      }
    }
    if rows > 0 && cols > 0 {
      GridsEqual(GridOf(s), AddOf(GridOf(a), Block(b, rows, cols), rows, cols), rows, cols);
    }
    return Ok(s);
  }

  /** Elementwise sum over the first vector's length. */
  method AddVectors(a: array<int>, b: array<int>) returns (r: Result<array<int>>)
    ensures b.Length < a.Length ==> r == Throws(IndexOutOfRange)
    ensures a.Length <= b.Length ==>
      r.Ok? && fresh(r.value) && r.value.Length == a.Length &&
      r.value[..] == Plus(a[..], b[..])
  {
    var ret := new int[a.Length];
    for i := 0 to a.Length
      invariant i <= b.Length
      invariant forall x :: 0 <= x < i ==> ret[x] == a[x] + b[x]
    {
      if i >= b.Length { return Throws(IndexOutOfRange); }
      ret[i] := a[i] + b[i];
    }
    assert ret[..] == Plus(a[..], b[..]);
    return Ok(ret);
  }

  /** Elementwise difference over the first vector's length. */
  method SubtractVectors(a: array<int>, b: array<int>) returns (r: Result<array<int>>)
    ensures b.Length < a.Length ==> r == Throws(IndexOutOfRange)
    ensures a.Length <= b.Length ==>
      r.Ok? && fresh(r.value) && r.value.Length == a.Length &&
      r.value[..] == Minus(a[..], b[..])
  {
    var ret := new int[a.Length];
    for i := 0 to a.Length
      invariant i <= b.Length
      invariant forall x :: 0 <= x < i ==> ret[x] == a[x] - b[x]
    {
      if i >= b.Length { return Throws(IndexOutOfRange); }
      ret[i] := a[i] - b[i];
    }
    assert ret[..] == Minus(a[..], b[..]);
    return Ok(ret);
  }

  /** The value a matrix-plus-vector call leaves in row `i`: the running
      `temp` is overwritten on every column, so only the last one counts. */
  function LastColumnSum(a: array2<int>, v: array<int>, i: nat): int
    requires i < a.Length0 && a.Length1 <= v.Length
    reads a, v
  {
    if a.Length1 == 0 then 0 else a[i, a.Length1 - 1] + v[a.Length1 - 1]
  }

  function LastColumnDifference(a: array2<int>, v: array<int>, i: nat): int
    requires i < a.Length0 && a.Length1 <= v.Length
    reads a, v
  {
    if a.Length1 == 0 then 0 else a[i, a.Length1 - 1] - v[a.Length1 - 1]
  }

  /** Matrix plus vector: one value per row, from the last column only. */
  method AddMatrixVector(a: array2<int>, v: array<int>) returns (r: Result<array<int>>)
    ensures a.Length0 > 0 && v.Length < a.Length1 ==> r == Throws(IndexOutOfRange)
    ensures !(a.Length0 > 0 && v.Length < a.Length1) ==>
      r.Ok? && fresh(r.value) &&
      r.value.Length == a.Length0 &&
      forall i :: 0 <= i < a.Length0 ==>
        (a.Length1 == 0 ==> r.value[i] == 0) &&
        (a.Length1 > 0 ==> r.value[i] == a[i, a.Length1 - 1] + v[a.Length1 - 1])
  {
    var s := new int[a.Length0];
    for i := 0 to a.Length0
      invariant i > 0 ==> a.Length1 <= v.Length
      invariant forall x :: 0 <= x < i ==> s[x] == LastColumnSum(a, v, x)
    {
      var temp := 0;
      for j := 0 to a.Length1
        invariant j <= v.Length
        invariant j > 0 ==> temp == a[i, j - 1] + v[j - 1]
        invariant j == 0 ==> temp == 0
      {
        if j >= v.Length { return Throws(IndexOutOfRange); }
        temp := a[i, j] + v[j];
      }
      s[i] := temp;
    }
    return Ok(s);
  }

  /** Matrix minus vector: one value per row, from the last column only. */
  method SubtractMatrixVector(a: array2<int>, v: array<int>) returns (r: Result<array<int>>)
    ensures a.Length0 > 0 && v.Length < a.Length1 ==> r == Throws(IndexOutOfRange)
    ensures !(a.Length0 > 0 && v.Length < a.Length1) ==>
      r.Ok? && fresh(r.value) &&
      r.value.Length == a.Length0 &&
      forall i :: 0 <= i < a.Length0 ==>
        (a.Length1 == 0 ==> r.value[i] == 0) &&
        (a.Length1 > 0 ==> r.value[i] == a[i, a.Length1 - 1] - v[a.Length1 - 1])
  {
    var s := new int[a.Length0];
    for i := 0 to a.Length0
      invariant i > 0 ==> a.Length1 <= v.Length
      invariant forall x :: 0 <= x < i ==> s[x] == LastColumnDifference(a, v, x)
    {
      var temp := 0;
      for j := 0 to a.Length1
        invariant j <= v.Length
        invariant j > 0 ==> temp == a[i, j - 1] - v[j - 1]
        invariant j == 0 ==> temp == 0
      {
        if j >= v.Length { return Throws(IndexOutOfRange); }
        temp := a[i, j] - v[j];
      }
      s[i] := temp;
    }
    return Ok(s);
  }

  /** Cellwise difference over the first matrix's shape. */
  method SubtractMatrices(a: array2<int>, b: array2<int>) returns (r: Result<array2<int>>)
    ensures a.Length0 > 0 && a.Length1 > 0 && (b.Length0 < a.Length0 || b.Length1 < a.Length1) ==>
      r == Throws(IndexOutOfRange)
    ensures !(a.Length0 > 0 && a.Length1 > 0 && (b.Length0 < a.Length0 || b.Length1 < a.Length1)) ==>
      r.Ok? && fresh(r.value) && r.value.Length0 == a.Length0 && r.value.Length1 == a.Length1 &&
      (a.Length0 == 0 || a.Length1 == 0 ||
       GridOf(r.value) == SubtractOf(GridOf(a), Block(b, a.Length0, a.Length1), a.Length0, a.Length1))
  {
    var rows, cols := a.Length0, a.Length1;
    // The runtime throws at the first read of b out of its bounds; the
    // partly filled result is then dropped, so checking first is the same.
    if rows > 0 && cols > 0 && (b.Length0 < rows || b.Length1 < cols) {
      return Throws(IndexOutOfRange);
    }
    var s := new int[rows, cols];
    for i := 0 to rows
      invariant forall x, y :: 0 <= x < i && 0 <= y < cols ==> s[x, y] == a[x, y] - b[x, y]
    {
      for j := 0 to cols
        invariant forall x, y :: 0 <= x < i && 0 <= y < cols ==> s[x, y] == a[x, y] - b[x, y]
        invariant forall y :: 0 <= y < j ==> s[i, y] == a[i, y] - b[i, y]
      {
        s[i, j] := a[i, j] - b[i, j];
      }
    }
    if rows > 0 && cols > 0 {
      GridsEqual(GridOf(s), SubtractOf(GridOf(a), Block(b, rows, cols), rows, cols), rows, cols);
    }
    return Ok(s);
  }

  /** Negates every element, into a new vector. */
  method Opposite(a: array<int>) returns (r: array<int>)
    ensures fresh(r) && r.Length == a.Length
    ensures r[..] == Negated(a[..])
  {
    r := new int[a.Length];
    for i := 0 to a.Length
      invariant forall x :: 0 <= x < i ==> r[x] == -a[x]
    {
      r[i] := -a[i];
    }
    assert r[..] == Negated(a[..]);
  }

  /** The dot product over the first vector's length. */
  method DotProduct(a: array<int>, v: array<int>) returns (r: Result<int>)
    ensures v.Length < a.Length <==> r == Throws(IndexOutOfRange)
    ensures a.Length <= v.Length ==> r == Ok(Dot(a[..], v[..], a.Length))
  {
    var temp := 0;
    for i := 0 to a.Length
      invariant i <= v.Length
      invariant temp == Dot(a[..], v[..], i)
    {
      if i >= v.Length { return Throws(IndexOutOfRange); }
      temp := temp + a[i] * v[i];
    }
    return Ok(temp);
  }

  /** Matrix times column vector: entry i is row i dotted with the vector. */
  method MultiplyMatrixVector(a: array2<int>, v: array<int>) returns (r: Result<array<int>>)
    ensures a.Length0 > 0 && v.Length < a.Length1 ==> r == Throws(IndexOutOfRange)
    ensures !(a.Length0 > 0 && v.Length < a.Length1) ==>
      r.Ok? && fresh(r.value) &&
      r.value.Length == a.Length0 &&
      forall i :: 0 <= i < a.Length0 ==> r.value[i] == Dot(GridOf(a)[i], v[..], a.Length1)
  {
    var s := new int[a.Length0];
    ghost var g := GridOf(a);
    for i := 0 to a.Length0
      invariant i > 0 ==> a.Length1 <= v.Length
      invariant forall x :: 0 <= x < i ==> s[x] == Dot(g[x], v[..], a.Length1)
    {
      var temp := 0;
      for j := 0 to a.Length1
        invariant j <= v.Length
        invariant temp == Dot(g[i], v[..], j)
      {
        if j >= v.Length { return Throws(IndexOutOfRange); }
        temp := temp + a[i, j] * v[j];
      }
      s[i] := temp;
    }
    return Ok(s);
  }

  /** Vector times matrix: entry u folds the vector against ROW u of the
      matrix, for u below the vector's length. */
  method MultiplyVectorMatrix(a: array<int>, m: array2<int>) returns (r: Result<array<int>>)
    ensures a.Length > 0 && (m.Length0 < a.Length || m.Length1 < a.Length) ==> r == Throws(IndexOutOfRange)
    ensures !(a.Length > 0 && (m.Length0 < a.Length || m.Length1 < a.Length)) ==>
      r.Ok? &&
      fresh(r.value) && r.value.Length == a.Length &&
      forall u :: 0 <= u < a.Length ==> r.value[u] == Dot(a[..], GridOf(m)[u], a.Length)
  {
    var res := new int[a.Length];
    ghost var g := GridOf(m);
    for u := 0 to a.Length
      invariant u > 0 ==> u <= m.Length0 && a.Length <= m.Length1
      invariant forall x :: 0 <= x < u ==> res[x] == Dot(a[..], g[x], a.Length)
    {
      var acc := 0;
      for i := 0 to a.Length
        invariant i > 0 ==> u < m.Length0 && i <= m.Length1
        invariant u < m.Length0 && i <= m.Length1 ==> acc == Dot(a[..], g[u], i)
      {
        if u >= m.Length0 || i >= m.Length1 { return Throws(IndexOutOfRange); }
        acc := acc + a[i] * m[u, i];
      }
      res[u] := acc;
    }
    return Ok(res);
  }

  /** Multiplies every cell by `x`, into a new matrix. */
  method MultiplyScalar(a: array2?<int>, x: int) returns (r: Result<array2<int>>)
    ensures a == null ==> r == Throws(ArgumentNull("array1"))
    ensures a != null ==>
      r.Ok? && fresh(r.value) &&
      r.value.Length0 == a.Length0 && r.value.Length1 == a.Length1 &&
      GridOf(r.value) == Scaled(GridOf(a), a.Length0, a.Length1, x)
  {
    if a == null { return Throws(ArgumentNull("array1")); }
    var s := new int[a.Length0, a.Length1];
    for i := 0 to a.Length0
      invariant forall p, q :: 0 <= p < i && 0 <= q < a.Length1 ==> s[p, q] == a[p, q] * x
    {
      for j := 0 to a.Length1
        invariant forall p, q :: 0 <= p < i && 0 <= q < a.Length1 ==> s[p, q] == a[p, q] * x
        invariant forall q :: 0 <= q < j ==> s[i, q] == a[i, q] * x
      {
        s[i, j] := a[i, j] * x;
      }
    }
    GridsEqual(GridOf(s), Scaled(GridOf(a), a.Length0, a.Length1, x), a.Length0, a.Length1);
    return Ok(s);
  }

  /** The innermost loop of the matrix product: row i of a against column
      j of b, accumulated in order of k from zero. */
  method RowTimesColumn(a: array2<int>, b: array2<int>, i: nat, j: nat) returns (sum: int)
    requires a.Length1 == b.Length0 && i < a.Length0 && j < b.Length1
    ensures sum == Dot(GridOf(a)[i], Column(GridOf(b), j), b.Length0)
  {
    ghost var row, col := GridOf(a)[i], Column(GridOf(b), j);
    assert forall k :: 0 <= k < b.Length0 ==> row[k] == a[i, k] && col[k] == b[k, j];
    sum := 0;
    for k := 0 to b.Length0
      invariant sum == Dot(row, col, k)
    {
      sum := sum + a[i, k] * b[k, j];
    }
  }

  /** Matrix product. */
  method Multiply(a: array2<int>, b: array2<int>) returns (r: array2<int>)
    requires a.Length1 == b.Length0
    ensures fresh(r) && r.Length0 == a.Length0 && r.Length1 == b.Length1
    ensures GridOf(r) == MatMul(GridOf(a), GridOf(b), a.Length0, b.Length0, b.Length1)
  {
    var m, p := a.Length0, b.Length1;
    ghost var product := MatMul(GridOf(a), GridOf(b), m, b.Length0, p);
    r := new int[m, p];
    for i := 0 to m
      invariant forall x, y :: 0 <= x < i && 0 <= y < p ==> r[x, y] == product[x][y]
    {
      FillRow(r, a, b, i);
    }
    GridsEqual(GridOf(r), product, m, p);
  }

  /** One pass of the middle loop of the matrix product: row i of r. */
  method FillRow(r: array2<int>, a: array2<int>, b: array2<int>, i: nat)
    requires a.Length1 == b.Length0 && r.Length0 == a.Length0 && r.Length1 == b.Length1 && i < a.Length0
    requires r != a && r != b
    modifies r
    ensures forall y :: 0 <= y < r.Length1 ==>
      r[i, y] == MatMul(GridOf(a), GridOf(b), a.Length0, b.Length0, b.Length1)[i][y]
    ensures forall x, y :: 0 <= x < r.Length0 && 0 <= y < r.Length1 && x != i ==> r[x, y] == old(r[x, y])
  {
    for j := 0 to r.Length1
      invariant forall y :: 0 <= y < j ==> r[i, y] == Dot(GridOf(a)[i], Column(GridOf(b), y), b.Length0)
      invariant forall x, y :: 0 <= x < r.Length0 && 0 <= y < r.Length1 && x != i ==> r[x, y] == old(r[x, y])
    {
      r[i, j] := RowTimesColumn(a, b, i, j);
    }
  }

  /** The row vector folded against column u of the matrix. */
  method VectorTimesColumn(a: array<int>, m: array2<int>, u: nat) returns (sum: int)
    requires a.Length == m.Length0 && u < m.Length1
    ensures sum == Dot(a[..], Column(GridOf(m), u), a.Length)
  {
    ghost var col := Column(GridOf(m), u);
    assert forall i :: 0 <= i < a.Length ==> col[i] == m[i, u];
    sum := 0;
    for i := 0 to a.Length
      invariant sum == Dot(a[..], col, i)
    {
      sum := sum + a[i] * m[i, u];
    }
  }

  /** Row vector times matrix, summing over the matrix's rows: entry u is
      the vector dotted with column u, one entry per column. */
  method MultiplyRowVector(a: array<int>, m: array2<int>) returns (r: array<int>)
    requires a.Length == m.Length0
    ensures fresh(r) && r.Length == m.Length1
    ensures forall u :: 0 <= u < m.Length1 ==> r[u] == Dot(a[..], Column(GridOf(m), u), a.Length)
  {
    r := new int[m.Length1];
    for u := 0 to m.Length1
      invariant forall x :: 0 <= x < u ==> r[x] == Dot(a[..], Column(GridOf(m), x), a.Length)
    {
      r[u] := VectorTimesColumn(a, m, u);
    }
  }

  /** The column-based product is the single row of the matrix product of
      the one-row matrix [a] with the grid. */
  lemma RowVectorIsOneRowProduct(a: seq<int>, g: Grid<int>, rows: nat, cols: nat)
    requires |a| == rows && IsRect(g, rows, cols)
    ensures forall u :: 0 <= u < cols ==> MatMul([a], g, 1, rows, cols)[0][u] == Dot(a, Column(g, u), rows)
  {
  }

  /** A square example where folding against rows differs from the
      row-vector product: [1, 0] against [[0, 1], [0, 0]]. */
  lemma VectorMatrixUsesRows()
    ensures var a, g := [1, 0], [[0, 1], [0, 0]];
      Dot(a, g[1], 2) == 0 && Dot(a, Column(g, 1), 2) == 1
  {
    var a, g := [1, 0], [[0, 1], [0, 0]];
    assert Column(g, 1) == [1, 0];
  }

  /** On a square matrix, folding the vector against rows is the
      matrix-times-vector product, not the vector-times-matrix one. */
  lemma {:induction false} VectorMatrixIsMatrixVector(a: seq<int>, g: Grid<int>, n: nat)
    requires |a| == n && IsRect(g, n, n)
    ensures forall u :: 0 <= u < n ==> Dot(a, g[u], n) == Dot(g[u], a, n)
  {
    forall u | 0 <= u < n ensures Dot(a, g[u], n) == Dot(g[u], a, n) {
      DotCommutes(a, g[u], n);
    }
  }

  // ---------------------------------------------------------------------
  // Power
  // ---------------------------------------------------------------------

  newtype int32 = x: int | -0x8000_0000 <= x < 0x8000_0000

  /** `n -= 1` on a 32-bit int: the minimum wraps to the maximum. */
  function Decrement(n: int32): (d: int32)
    ensures (d as int - (n as int - 1)) % 0x1_0000_0000 == 0
  {
    if n == -0x8000_0000 then 0x7FFF_FFFF else n - 1
  }

  /** How many times the loop squares before its counter reaches 1. */
  function Steps(n: int32): nat
  {
    (n as int - 1) % 0x1_0000_0000
  }

  lemma StepsDecrease(n: int32)
    requires n != 1
    ensures Steps(Decrement(n)) + 1 == Steps(n)
  {
    if n == -0x8000_0000 {
    } else if n > 1 {
    } else {
      assert Steps(n) == n as int - 1 + 0x1_0000_0000;
      assert Steps(Decrement(n)) == n as int - 2 + 0x1_0000_0000;
    }
  }

  /** The square matrix squared s times: its 2^s-th power. */
  function Squarings(g: Grid<int>, size: nat, s: nat): (p: Grid<int>)
    requires IsRect(g, size, size)
    ensures IsRect(p, size, size)
  {
    if s == 0 then g
    else
      var h := Squarings(g, size, s - 1);
      MatMul(h, h, size, size, size)
  }

  /** The n-th power of a square matrix, n >= 1, by repeated multiplication. */
  function MatPow(g: Grid<int>, size: nat, n: nat): (p: Grid<int>)
    requires IsRect(g, size, size) && n >= 1
    ensures IsRect(p, size, size)
  {
    if n == 1 then g else MatMul(MatPow(g, size, n - 1), g, size, size, size)
  }

  /** The loop as written: the counter steps down (wrapping below the 32-bit
      minimum) until it is 1, squaring the running matrix each time. */
  method MatrixPower(a: array2<int>, n: int32) returns (r: array2<int>)
    requires n == 1 || a.Length0 == a.Length1
    ensures n == 1 ==> r == a
    ensures a.Length0 == a.Length1 ==>
      r.Length0 == a.Length0 && r.Length1 == a.Length0 &&
      GridOf(r) == Squarings(GridOf(a), a.Length0, Steps(n))
  {
    ghost var g, size := GridOf(a), a.Length0;
    ghost var done: nat := 0;
    var cur, k := a, n;
    while true
      invariant a.Length0 != a.Length1 ==> k == 1 && cur == a
      invariant a.Length0 == a.Length1 ==> cur.Length0 == size && cur.Length1 == size
      invariant a.Length0 == a.Length1 ==> GridOf(cur) == Squarings(g, size, done)
      invariant done + Steps(k) == Steps(n)
      invariant done == 0 ==> cur == a
      decreases Steps(k)
    {
      if k == 1 { return cur; }
      var sq := Multiply(cur, cur);
      StepsDecrease(k);
      cur, k, done := sq, Decrement(k), done + 1;
    }
  }

  /** The power the name promises: n-1 multiplications by the matrix;
      counts below 1 are rejected, and n == 1 still returns the matrix
      itself, whatever its shape. */
  method MatrixPowerCorrected(a: array2<int>, n: int32) returns (r: Result<array2<int>>)
    requires n <= 1 || a.Length0 == a.Length1
    ensures n < 1 <==> r == Throws(ArgumentOutOfRange("n"))
    ensures n == 1 ==> r == Ok(a)
    ensures n >= 1 && a.Length0 == a.Length1 ==>
      r.Ok? && r.value.Length0 == a.Length0 && r.value.Length1 == a.Length0 &&
      GridOf(r.value) == MatPow(GridOf(a), a.Length0, n as nat)
  {
    if n < 1 { return Throws(ArgumentOutOfRange("n")); }
    ghost var g, size := GridOf(a), a.Length0;
    var cur := a;
    var i: int32 := 1;
    while i < n
      invariant 1 <= i <= n
      invariant i == 1 ==> cur == a
      invariant a.Length0 == a.Length1 ==> cur.Length0 == size && cur.Length1 == size
      invariant a.Length0 == a.Length1 ==> GridOf(cur) == MatPow(g, size, i as nat)
    {
      cur := Multiply(cur, a);
      i := i + 1;
    }
    return Ok(cur);
  }

  function Pow(x: int, e: nat): int
  {
    if e == 0 then 1 else Pow(x, e - 1) * x
  }

  function Pow2(e: nat): nat
  {
    if e == 0 then 1 else 2 * Pow2(e - 1)
  }

  lemma {:induction false} PowAdds(x: int, d: nat, e: nat)
    ensures Pow(x, d + e) == Pow(x, d) * Pow(x, e)
  {
    if e > 0 {
      PowAdds(x, d, e - 1);
      assert Pow(x, d + e) == Pow(x, d + e - 1) * x;
    }
  }

  lemma OneByOneProduct(x: int, y: int)
    ensures MatMul([[x]], [[y]], 1, 1, 1) == [[x * y]]
  {
    var m := MatMul([[x]], [[y]], 1, 1, 1);
    assert Column([[y]], 0) == [y];
    assert Dot([x], [y], 1) == Dot([x], [y], 0) + x * y;
    GridsEqual(m, [[x * y]], 1, 1);
  }

  /** On a 1-by-1 matrix the corrected power is the ordinary power. */
  lemma {:induction false} CorrectedPowerOneByOne(x: int, n: nat)
    requires n >= 1
    ensures MatPow([[x]], 1, n) == [[Pow(x, n)]]
  {
    if n == 1 {
      assert Pow(x, 1) == x;
    } else {
      CorrectedPowerOneByOne(x, n - 1);
      OneByOneProduct(Pow(x, n - 1), x);
    }
  }

  /** On a 1-by-1 matrix, s squarings raise the entry to the power 2^s. */
  lemma {:induction false} SquaringsOneByOne(x: int, s: nat)
    ensures Squarings([[x]], 1, s) == [[Pow(x, Pow2(s))]]
  {
    if s > 0 {
      SquaringsOneByOne(x, s - 1);
      var p := Pow(x, Pow2(s - 1));
      OneByOneProduct(p, p);
      PowAdds(x, Pow2(s - 1), Pow2(s - 1));
    }
  }

  /** MatrixPower([[2]], 3) squares twice and yields [[16]]; the third power is [[8]]. */
  lemma PowerOfTwoByThree()
    ensures Squarings([[2]], 1, Steps(3)) == [[16]]
    ensures MatPow([[2]], 1, 3) == [[8]]
  {
    assert Steps(3) == 2;
    SquaringsOneByOne(2, 2);
    assert Pow2(2) == 4;
    assert Pow(2, 4) == 16;
    CorrectedPowerOneByOne(2, 3);
    assert Pow(2, 3) == 8;
  }
}
