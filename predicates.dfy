/** The primitive properties of a relation, stated declaratively on values.
    The scans in module Properties are proved to decide exactly these. */
module Predicates {
  import opened Matrices
  import opened BinaryOperations
  import opened UnaryOperations

  /** Every pair is related. */
  predicate Total(c: Relation)
  {
    forall i, j :: 0 <= i < |c| && 0 <= j < |c| ==> c[i][j]
  }

  /** Exactly the pairs of distinct elements are related. */
  predicate AntiDiagonal(c: Relation)
  {
    forall i, j :: 0 <= i < |c| && 0 <= j < |c| ==> (c[i][j] <==> i != j)
  }

  /** Exactly the pairs (i, i) are related: the identity relation. */
  predicate Diagonal(c: Relation)
  {
    forall i, j :: 0 <= i < |c| && 0 <= j < |c| ==> (c[i][j] <==> i == j)
  }

  predicate Reflexive(c: Relation)
  {
    forall i :: 0 <= i < |c| ==> c[i][i]
  }

  predicate AntiReflexive(c: Relation)
  {
    forall i :: 0 <= i < |c| ==> !c[i][i]
  }

  predicate Symmetric(c: Relation)
  {
    forall i, j :: 0 <= i < |c| && 0 <= j < |c| && i != j ==> c[i][j] == c[j][i]
  }

  /** No two distinct elements are related both ways; the diagonal is not
      constrained. */
  predicate Asymmetric(c: Relation)
  {
    forall i, j :: 0 <= i < |c| && 0 <= j < |c| && i != j ==> !(c[i][j] && c[j][i])
  }

  /** As the library defines it: every two distinct elements are related in
      exactly one direction. */
  predicate AntiSymmetric(c: Relation)
  {
    forall i, j :: 0 <= i < |c| && 0 <= j < |c| && i != j ==> c[i][j] != c[j][i]
  }

  predicate Transitive(c: Relation)
  {
    forall i, j, k :: 0 <= i < |c| && 0 <= j < |c| && 0 <= k < |c| && c[i][k] && c[k][j] ==> c[i][j]
  }

  /** Every two distinct elements are related in at least one direction. */
  predicate Connex(c: Relation)
  {
    forall i, j :: 0 <= i < |c| && 0 <= j < |c| && i != j ==> c[i][j] || c[j][i]
  }

  /** The complement is transitive. */
  predicate NegativeTransitive(c: Relation)
  {
    Transitive(ComplementOf(c))
  }

  // ---------------------------------------------------------------------
  // Laws
  // ---------------------------------------------------------------------

  /** A relation is transitive iff its composition with itself stays inside it. */
  lemma TransitiveIffProductInside(c: Relation)
    ensures Transitive(c) <==> Subset(ProductOf(c, c), c)
  {
    if Transitive(c) {
      forall i, j | 0 <= i < |c| && 0 <= j < |c| && ProductOf(c, c)[i][j] ensures c[i][j] {
        ProductMeansComposition(c, c, i, j);
      }
    }
    if Subset(ProductOf(c, c), c) {
      forall i, j, k | 0 <= i < |c| && 0 <= j < |c| && 0 <= k < |c| && c[i][k] && c[k][j]
        ensures c[i][j]
      {
        ProductMeansComposition(c, c, i, j);
      }
    }
  }

  /** Negative transitivity, unfolded: if i is related to j then, for any k,
      i is related to k or k is related to j. */
  lemma NegativeTransitiveMeaning(c: Relation)
    ensures NegativeTransitive(c) <==>
      forall i, j, k :: 0 <= i < |c| && 0 <= j < |c| && 0 <= k < |c| && c[i][j] ==> c[i][k] || c[k][j]
  {
    var d := ComplementOf(c);
    if NegativeTransitive(c) {
      forall i, j, k | 0 <= i < |c| && 0 <= j < |c| && 0 <= k < |c| && c[i][j] ensures c[i][k] || c[k][j] {
        assert !d[i][j];
      }
    }
  }

  /** Anti-symmetry as the library defines it is asymmetry plus connexity. */
  lemma AntiSymmetricIsAsymmetricConnex(c: Relation)
    ensures AntiSymmetric(c) <==> Asymmetric(c) && Connex(c)
  {
  }

  /** Symmetry means being equal to the converse. */
  lemma SymmetricIffSelfConverse(c: Relation)
    ensures Symmetric(c) <==> ReverseOf(c) == c
  {
    if Symmetric(c) {
      Extensionality(ReverseOf(c), c);
    }
    if ReverseOf(c) == c {
      forall i, j | 0 <= i < |c| && 0 <= j < |c| && i != j ensures c[i][j] == c[j][i] {
        assert ReverseOf(c)[j][i] == c[i][j];
      }
    }
  }

  /** Taking the converse keeps anti-symmetry, as the library's tests show. */
  lemma ConversePreservesAntiSymmetric(c: Relation)
    ensures AntiSymmetric(ReverseOf(c)) == AntiSymmetric(c)
  {
    var r := ReverseOf(c);
    if AntiSymmetric(c) {
      forall i, j | 0 <= i < |c| && 0 <= j < |c| && i != j ensures r[i][j] != r[j][i] {
        assert r[i][j] == c[j][i] && r[j][i] == c[i][j];
      }
    }
    if AntiSymmetric(r) {
      forall i, j | 0 <= i < |c| && 0 <= j < |c| && i != j ensures c[i][j] != c[j][i] {
        assert r[j][i] == c[i][j] && r[i][j] == c[j][i];
      }
    }
  }

  lemma ConversePreservesAsymmetric(c: Relation)
    ensures Asymmetric(ReverseOf(c)) == Asymmetric(c)
  {
    var r := ReverseOf(c);
    if Asymmetric(c) {
      forall i, j | 0 <= i < |c| && 0 <= j < |c| && i != j ensures !(r[i][j] && r[j][i]) {
        assert r[i][j] == c[j][i] && r[j][i] == c[i][j];
      }
    }
    if Asymmetric(r) {
      forall i, j | 0 <= i < |c| && 0 <= j < |c| && i != j ensures !(c[i][j] && c[j][i]) {
        assert r[j][i] == c[i][j] && r[i][j] == c[j][i];
      }
    }
  }

  lemma ConversePreservesTransitive(c: Relation)
    ensures Transitive(ReverseOf(c)) == Transitive(c)
  {
    var r := ReverseOf(c);
    if Transitive(c) {
      forall i, j, k | 0 <= i < |c| && 0 <= j < |c| && 0 <= k < |c| && r[i][k] && r[k][j] ensures r[i][j] {
        assert c[k][i] && c[j][k];
      }
    }
    if Transitive(r) {
      forall i, j, k | 0 <= i < |c| && 0 <= j < |c| && 0 <= k < |c| && c[i][k] && c[k][j] ensures c[i][j] {
        assert r[k][i] && r[j][k];
        assert r[j][i];
      }
    }
  }

  /** The complement swaps reflexive and anti-reflexive, diagonal and
      anti-diagonal. */
  lemma ComplementSwapsDiagonalProperties(c: Relation)
    ensures Reflexive(c) <==> AntiReflexive(ComplementOf(c))
    ensures Diagonal(c) <==> AntiDiagonal(ComplementOf(c))
  {
  }
}
