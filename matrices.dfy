/** The square boolean matrix that encodes a relation, seen as a value:
    `c[i][j]` holds when element `i` is related to element `j`. */
module Matrices {

  /** A square boolean matrix of any dimension n >= 0. */
  type Relation = c: seq<seq<bool>> | forall i :: 0 <= i < |c| ==> |c[i]| == |c|

  /** The n-by-n top-left window of an array, as a value. */
  function Window(a: array2<bool>, n: nat): (c: Relation)
    requires n <= a.Length0 && n <= a.Length1
    reads a
    ensures |c| == n
    ensures forall i, j :: 0 <= i < n && 0 <= j < n ==> c[i][j] == a[i, j]
  {
    seq(n, i requires 0 <= i < n reads a => seq(n, j requires 0 <= j < n reads a => a[i, j]))
  }

  /** The contents of a square array. */
  function Cells(a: array2<bool>): (c: Relation)
    requires a.Length0 == a.Length1
    reads a
    ensures |c| == a.Length0
    ensures forall i, j :: 0 <= i < |c| && 0 <= j < |c| ==> c[i][j] == a[i, j]
  {
    Window(a, a.Length0)
  }

  /** Two relations of the same size with the same cells are equal. */
  lemma Extensionality(x: Relation, y: Relation)
    requires |x| == |y|
    requires forall i, j :: 0 <= i < |x| && 0 <= j < |x| ==> x[i][j] == y[i][j]
    ensures x == y
  {
    forall i | 0 <= i < |x| ensures x[i] == y[i] {
      assert |x[i]| == |y[i]|;
    }
  }

  /** Every true cell of `x` is a true cell of `y`. */
  predicate Subset(x: Relation, y: Relation)
    requires |x| == |y|
  {
    forall i, j :: 0 <= i < |x| && 0 <= j < |x| && x[i][j] ==> y[i][j]
  }

  /** Allocates a copy of a square array (the runtime's `Clone`). */
  method Clone(a: array2<bool>) returns (c: array2<bool>)
    requires a.Length0 == a.Length1
    ensures fresh(c) && c.Length0 == a.Length0 && c.Length1 == a.Length1
    ensures Cells(c) == Cells(a)
  {
    c := new bool[a.Length0, a.Length1]((i, j) reads a => if 0 <= i < a.Length0 && 0 <= j < a.Length1 then a[i, j] else false);
    Extensionality(Cells(c), Cells(a));
  }
}
