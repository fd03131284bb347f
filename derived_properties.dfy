/** The order-theoretic properties, each a conjunction (or negation) of the
    primitive ones, behind the same guard as the primitives. */
module DerivedProperties {
  import opened Matrices
  import opened Predicates
  import opened Paths
  import opened Graph

  predicate NonTransitive(c: Relation) { !Transitive(c) && !NegativeTransitive(c) }
  predicate NonSymmetric(c: Relation) { !Symmetric(c) && !AntiSymmetric(c) }
  predicate Equivalence(c: Relation) { Reflexive(c) && Symmetric(c) && Transitive(c) }
  predicate PartialEquivalence(c: Relation) { Symmetric(c) && Transitive(c) }
  predicate NonStrictOrder(c: Relation) { Reflexive(c) && AntiSymmetric(c) && Transitive(c) }
  predicate StrictOrder(c: Relation) { AntiReflexive(c) && AntiSymmetric(c) && Transitive(c) }
  predicate LinearOrder(c: Relation) { Reflexive(c) && AntiSymmetric(c) && Transitive(c) && Connex(c) }
  predicate PartialOrder(c: Relation) { Reflexive(c) && AntiSymmetric(c) && Transitive(c) }
  predicate StrictPartialOrder(c: Relation) { AntiReflexive(c) && Asymmetric(c) && Transitive(c) }
  predicate StrictLinearOrder(c: Relation) { AntiReflexive(c) && Asymmetric(c) && Transitive(c) && Connex(c) }
  predicate TotalOrder(c: Relation) { Reflexive(c) && Transitive(c) && Connex(c) }
  predicate PreOrder(c: Relation) { Reflexive(c) && Transitive(c) }
  predicate StrictPreOrder(c: Relation) { AntiReflexive(c) && Transitive(c) }
  predicate Tournament(c: Relation) { AntiReflexive(c) && Asymmetric(c) }
  predicate Dependency(c: Relation) { Reflexive(c) && Symmetric(c) }

  // ---------------------------------------------------------------------
  // How the derived properties relate
  // ---------------------------------------------------------------------

  /** Partial order and non-strict order are the same rule. */
  lemma PartialOrderIsNonStrictOrder(c: Relation)
    ensures PartialOrder(c) == NonStrictOrder(c)
  {
  }

  lemma LinearOrderImplies(c: Relation)
    ensures LinearOrder(c) ==> PartialOrder(c) && TotalOrder(c)
  {
  }

  lemma EquivalenceImplies(c: Relation)
    ensures Equivalence(c) ==> PartialEquivalence(c) && PreOrder(c) && Dependency(c)
  {
  }

  lemma StrictOrdersChain(c: Relation)
    ensures StrictLinearOrder(c) ==> StrictPartialOrder(c)
    ensures StrictPartialOrder(c) ==> StrictPreOrder(c) && Tournament(c)
  {
  }

  /** Because anti-symmetry, as the library defines it, already relates
      every two distinct elements one way, a partial order is a linear
      order and a strict order is a strict linear order. */
  lemma AntiSymmetricOrdersAreLinear(c: Relation)
    ensures PartialOrder(c) <==> LinearOrder(c)
    ensures StrictOrder(c) <==> StrictLinearOrder(c)
  {
    AntiSymmetricIsAsymmetricConnex(c);
  }

  /** A strict preorder needs no separate asymmetry check: transitivity and
      an empty diagonal give it, so the two strict rules agree. */
  lemma StrictPreOrderIsStrictPartialOrder(c: Relation)
    ensures StrictPreOrder(c) <==> StrictPartialOrder(c)
  {
  }

  /** A transitive relation is acyclic exactly when its diagonal is empty;
      in particular every strict preorder is acyclic. */
  lemma TransitiveAcyclicIffAntiReflexive(c: Relation)
    requires Transitive(c)
    ensures Acyclic(c) <==> AntiReflexive(c)
  {
    ClosureOfTransitive(c);
  }

  /** Non-symmetric: some distinct pair is related in one direction only,
      and some distinct pair is related both ways or neither way. */
  lemma NonSymmetricMeaning(c: Relation)
    ensures NonSymmetric(c) <==>
      (exists i, j :: 0 <= i < |c| && 0 <= j < |c| && i != j && c[i][j] != c[j][i]) &&
      (exists i, j :: 0 <= i < |c| && 0 <= j < |c| && i != j && c[i][j] == c[j][i])
  {
  }

  /** Non-transitive: some pair breaks transitivity and some pair breaks
      negative transitivity. */
  lemma NonTransitiveMeaning(c: Relation)
    ensures NonTransitive(c) <==>
      (exists i, j, k :: 0 <= i < |c| && 0 <= j < |c| && 0 <= k < |c| && c[i][k] && c[k][j] && !c[i][j]) &&
      (exists i, j, k :: 0 <= i < |c| && 0 <= j < |c| && 0 <= k < |c| && c[i][j] && !c[i][k] && !c[k][j])
  {
    NegativeTransitiveMeaning(c);
  }
}
