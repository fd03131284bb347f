/** The argument guards every public operation runs before it computes
    anything. */
module ArgumentsCheck {
  import opened Errors

  /** Throws ArgumentNullException at the first null argument. */
  function ThrowIfNull(args: seq<object?>): (r: Outcome)
    ensures r.Pass? <==> forall i :: 0 <= i < |args| ==> args[i] != null
    ensures r.Fail? ==> r.error == ArgumentNull("o")
  {
    if |args| == 0 then Pass
    else if args[0] == null then Fail(ArgumentNull("o"))
    else ThrowIfNull(args[1..])
  }

  /** Rejects a matrix whose row and column counts differ; the exception it
      raises is an ArgumentNullException, not an ArgumentException. */
  function ThrowIfNotQuad<T>(a: array2<T>): (r: Outcome)
    ensures r.Pass? <==> a.Length0 == a.Length1
    ensures r.Fail? ==> r.error == ArgumentNull("array1")
  {
    if a.Length0 != a.Length1 then Fail(ArgumentNull("array1")) else Pass
  }

  /** Null check first, then the square check. */
  function ThrowIfNull_NotQuad<T>(a: array2?<T>): (r: Outcome)
    ensures r.Pass? <==> a != null && a.Length0 == a.Length1
    ensures a == null ==> r == Fail(ArgumentNull("o"))
    ensures a != null && a.Length0 != a.Length1 ==> r == Fail(ArgumentNull("array1"))
  {
    var nulls := ThrowIfNull([a]);
    if nulls.Fail? then nulls else ThrowIfNotQuad(a)
  }

  /** Null-checks both matrices, checks only the first one for squareness,
      then compares the row counts only. */
  function ThrowIfNull_NotQuad_SizeDiffers<T>(a: array2?<T>, b: array2?<T>): (r: Outcome)
    ensures r.Pass? <==> a != null && b != null && a.Length0 == a.Length1 && a.Length0 == b.Length0
    ensures (a == null || b == null) ==> r == Fail(ArgumentNull("o"))
    ensures a != null && b != null && a.Length0 != a.Length1 ==> r == Fail(ArgumentNull("array1"))
    ensures a != null && b != null && a.Length0 == a.Length1 && a.Length0 != b.Length0
      ==> r == Fail(Argument("matrices sizes are not equal"))
  {
    var args: seq<object?> := [a, b];
    assert args[0] == a && args[1] == b;
    var nulls := ThrowIfNull(args);
    if nulls.Fail? then nulls
    else
      var quad := ThrowIfNotQuad(a);
      if quad.Fail? then quad
      else if a.Length0 != b.Length0 then Fail(Argument("matrices sizes are not equal"))
      else Pass
  }
}
