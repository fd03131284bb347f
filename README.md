# Binary relations and matrix utilities, modelled in Dafny

This project models the core of the C# library MaxRev.Extensions.Binary. The
library works on finite binary relations. Each relation is stored as a square
`bool[,]` adjacency matrix: cell `[i, j]` is true when element `i` is related
to element `j`. The library offers:

- the set algebra of relations: intersection, union, difference, symmetric
  difference and the boolean product;
- unary transforms: complement, reverse (converse), dual and range narrowing;
- the reflexive, symmetric and transitive closures (Floyd–Warshall, in place
  on a clone);
- the primitive property checks (total, diagonal, reflexive, symmetric,
  transitive, connex, …), a depth-first cycle check, and fifteen derived
  order-theoretic predicates built from them;
- finders for maximum, minimum, majorant and minorant elements;
- argument guards and the identity-relation builder.

Next to the relations sit some matrix utilities:

- generic transpose, fill and row/column access;
- a combinations generator and a cartesian product;
- integer matrix arithmetic, including `MatrixPower`;
- a grid flood fill (`RoomSearch`).

How the model is built:

- A relation is a value of type `Matrices.Relation`, a square
  `seq<seq<bool>>`. Every operation has a specification function on such
  values (`UnionOf`, `ClosureOf`, `ExtremumsOf`, …). The algebraic and
  order-theoretic laws are proved about these functions.
- Each C# method is an imperative Dafny method on `array2?<bool>` or
  `array2<int>`. It has the source's loops, and its postcondition ties the
  result to the specification function.
- A `null` argument is modelled with nullable array types. Exceptions become
  the `Errors.Result` / `Errors.Outcome` error values. Each error carries the
  CLR exception type the source throws, and the parameter name where the
  source gives one.
- A read past an array bound, which the runtime turns into
  `IndexOutOfRangeException`, is modelled as the error value
  `IndexOutOfRange`.
- The flood fill is a class, `RoomSearch.RoomSearcher`. Its `visited` array
  is updated in place. The lists of cells live in a store that the method
  appends to, and `rooms` refers to those lists by position. The recursion
  ends because each call marks a new cell in `visited`, so the set of
  unvisited cells shrinks. The source's `RoomCore` is split in two: the
  visit of one cell (`RoomCore`) and the four recursive calls on its
  neighbours (`Spread`).

The library has no separate antisymmetry-as-usual check. `IsAntiSymmetric`
as coded demands that every two distinct elements be related in exactly one
direction. The model keeps that meaning (`Predicates.AntiSymmetric`) and
proves what follows from it, for example that a partial order in this
library's sense is always linear.

The older monolithic file `BinaryRelations/BinaryRelations.cs` repeats the
split files' bodies. The one real difference is its `IsAcyclic` start-node
loop, modelled as `LegacyRelations.LegacyIsAcyclic`. Its extremum finders use
a `notFound` flag that means the same as `rulePassing`. The rest is modelled
once, through the split modules.

## Model

| member | source | states |
|---|---|---|
| ArgumentsCheck.ThrowIfNull | BinaryRelations/Binary/ArgumentsCheck.cs:9-15 | passes exactly when no argument is null; otherwise fails with ArgumentNullException("o") |
| ArgumentsCheck.ThrowIfNotQuad | BinaryRelations/Binary/ArgumentsCheck.cs:17-23 | passes exactly when rows == cols; a non-square matrix fails with ArgumentNullException("array1"), not ArgumentException |
| ArgumentsCheck.ThrowIfNull_NotQuad | BinaryRelations/Binary/ArgumentsCheck.cs:25-29 | passes iff the matrix is non-null and square; null is reported before non-squareness |
| ArgumentsCheck.ThrowIfNull_NotQuad_SizeDiffers | BinaryRelations/Binary/ArgumentsCheck.cs:31-39 | passes iff both are non-null, the first is square and the row counts agree; failures are reported in that order; the second matrix's shape beyond its row count is never checked |
| Matrices.Clone | BinaryRelations/Binary/Closures.cs:18 | the clone is a fresh array of the same size with the same cells |
| BinaryOperations.IntersectionOf | BinaryRelations/Binary/BinaryOperations.cs:13-29 | cell (i, j) of the result is x[i][j] && y[i][j] |
| BinaryOperations.UnionOf | BinaryRelations/Binary/BinaryOperations.cs:37-54 | cell (i, j) of the result is x[i][j] \|\| y[i][j] |
| BinaryOperations.DifferenceOf | BinaryRelations/Binary/BinaryOperations.cs:62-78 | cell (i, j) of the result is x[i][j] && !y[i][j] |
| BinaryOperations.SymmetricDifferenceOf | BinaryRelations/Binary/BinaryOperations.cs:86-106 | cell (i, j) of the result is x[i][j] xor y[i][j] |
| BinaryOperations.ProductOf | BinaryRelations/Binary/BinaryOperations.cs:114-138 | cell (i, j) is the disjunction the `max` accumulator builds over all k < n |
| BinaryOperations.ThroughMeansWitness | BinaryRelations/Binary/BinaryOperations.cs:125-132 | the accumulated disjunction over k < bound holds iff some k < bound has x[i][k] and y[k][j] |
| BinaryOperations.ProductMeansComposition | BinaryRelations/Binary/BinaryOperations.cs:114-138 | a product cell (i, j) holds iff some k has x[i][k] and y[k][j]: the product is relational composition |
| BinaryOperations.SymmetricDifferenceIsUnionOfDifferences | BinaryRelations/Binary/BinaryOperations.cs:93-96 | the symmetric difference equals Union(Difference(x, y), Difference(y, x)), as the comment claims |
| BinaryOperations.IntersectionIsGreatestLowerBound | BinaryRelations/Binary/BinaryOperations.cs:13-29 | the intersection is inside both operands and contains every relation inside both |
| BinaryOperations.UnionIsLeastUpperBound | BinaryRelations/Binary/BinaryOperations.cs:37-54 | the union contains both operands and is inside every relation containing both |
| BinaryOperations.DifferencePartitions | BinaryRelations/Binary/BinaryOperations.cs:62-78 | x minus y together with x ∩ y gives back x, and x minus y shares nothing with y |
| BinaryOperations.Intersection | BinaryRelations/Binary/BinaryOperations.cs:13-29 | a guard failure returns that guard's exception; a second matrix with fewer than n columns faults with IndexOutOfRange; otherwise the result is a fresh n×n array equal to IntersectionOf of the two inputs |
| BinaryOperations.Union | BinaryRelations/Binary/BinaryOperations.cs:37-54 | same error cases as Intersection; otherwise a fresh n×n array equal to UnionOf of the inputs |
| BinaryOperations.Difference | BinaryRelations/Binary/BinaryOperations.cs:62-78 | guard errors as above; because `&&` short-circuits, it faults only when a true cell of the first matrix lies in a column the second lacks; otherwise a fresh array equal to DifferenceOf |
| BinaryOperations.SymmetricDifference | BinaryRelations/Binary/BinaryOperations.cs:86-106 | same error cases as Intersection; otherwise a fresh array equal to SymmetricDifferenceOf |
| BinaryOperations.Product | BinaryRelations/Binary/BinaryOperations.cs:114-138 | same error cases as Intersection; otherwise a fresh array equal to ProductOf, i.e. to the composition of the inputs |
| UnaryOperations.ComplementOf | BinaryRelations/Binary/UnaryOperations.cs:15-31 | every cell is negated |
| UnaryOperations.ReverseOf | BinaryRelations/Binary/UnaryOperations.cs:39-43 | cell (j, i) of the result is cell (i, j) of the input |
| UnaryOperations.DualOf | BinaryRelations/Binary/UnaryOperations.cs:50-69 | cell (j, i) of the result is the negation of cell (i, j) |
| UnaryOperations.NarrowingOf | BinaryRelations/Binary/UnaryOperations.cs:78-97 | a cell survives iff both of its 1-based indices lie in [x1, x2] and it was set |
| UnaryOperations.ComplementInvolutive | BinaryRelations/Binary/UnaryOperations.cs:15-31 | complementing twice gives the original relation |
| UnaryOperations.ReverseInvolutive | BinaryRelations/Binary/UnaryOperations.cs:39-43 | reversing twice gives the original relation |
| UnaryOperations.DualIsComplementOfReverse | BinaryRelations/Binary/UnaryOperations.cs:57-58 | the dual equals the complement of the reverse and the reverse of the complement, so complement and reverse commute |
| UnaryOperations.DeMorgan | BinaryRelations/Binary/UnaryOperations.cs:15-31 | the complement of a union is the intersection of the complements, and dually |
| UnaryOperations.DifferenceIsIntersectionWithComplement | BinaryRelations/Binary/BinaryOperations.cs:62-78 | Difference(x, y) equals Intersection(x, Complementation(y)) |
| UnaryOperations.ReverseOfProduct | BinaryRelations/Binary/BinaryOperations.cs:114-138 | the reverse of a product is the product of the reverses in swapped order |
| UnaryOperations.NarrowingFullRangeKeepsAll | BinaryRelations/Binary/UnaryOperations.cs:84-94 | a range covering [1, n] returns the relation unchanged |
| UnaryOperations.NarrowingComposes | BinaryRelations/Binary/UnaryOperations.cs:78-97 | narrowing twice equals narrowing once to the intersection of the two ranges |
| UnaryOperations.Complementation | BinaryRelations/Binary/UnaryOperations.cs:15-31 | null gives ArgumentNullException("o"); there is no square check and the size comes from the row count, so fewer columns than rows faults with IndexOutOfRange; otherwise the complement of the n×n window |
| UnaryOperations.Reverse | BinaryRelations/Binary/UnaryOperations.cs:39-43 | guard errors first; otherwise, through the library's Transpose, a fresh square array with r[j, i] == m[i, j] |
| UnaryOperations.ReverseCells | BinaryRelations/Binary/UnaryOperations.cs:39-43 | an array holding the transposed cells is exactly ReverseOf of the input |
| UnaryOperations.Dual | BinaryRelations/Binary/UnaryOperations.cs:50-69 | guard errors first; otherwise a fresh array equal to DualOf |
| UnaryOperations.Narrowing | BinaryRelations/Binary/UnaryOperations.cs:78-97 | x1 > x2 gives InvalidOperationException before any guard; then guard errors; otherwise a fresh n×n array equal to NarrowingOf, with x1 and x2 not checked against [1, n] |
| Closures.ReflexiveClosureOf | BinaryRelations/Binary/Closures.cs:33-45 | every diagonal cell is set and every other cell equals the input |
| Closures.SymmetricClosureOf | BinaryRelations/Binary/Closures.cs:53-71 | cell (i, j) is m[i][j] \|\| m[j][i] |
| Closures.ReflexiveClosureLeast | BinaryRelations/Binary/Closures.cs:33-45 | the reflexive closure is reflexive, contains the input, and lies inside every reflexive relation that contains the input |
| Closures.SymmetricClosureLeast | BinaryRelations/Binary/Closures.cs:53-71 | the symmetric closure is symmetric, contains the input, and lies inside every symmetric relation that contains the input |
| Closures.ClosuresFixClosedRelations | BinaryRelations/Binary/Closures.cs:33-71 | each closure leaves a relation unchanged iff it already has the property |
| Closures.RelaxRow | BinaryRelations/Binary/Closures.cs:21-22 | one row pass of phase k moves that row from k phases to k + 1 phases and leaves the other rows as they were |
| Closures.TransitiveClosure | BinaryRelations/Binary/Closures.cs:13-25 | guard errors first; otherwise a fresh array equal to ClosureOf of the input, although the loop reads cells it has already updated |
| Closures.ReflexiveClosure | BinaryRelations/Binary/Closures.cs:33-45 | guard errors first; otherwise a fresh array equal to ReflexiveClosureOf |
| Closures.MirrorRow | BinaryRelations/Binary/Closures.cs:61-68 | after row i is scanned, every pair (i, j) of the input has its mirror (j, i) set, and nothing else changed |
| Closures.SymmetricClosure | BinaryRelations/Binary/Closures.cs:53-71 | guard errors first; otherwise a fresh array equal to SymmetricClosureOf, although the loop reads cells it has already set |
| Paths.ClosureOf | BinaryRelations/Binary/Closures.cs:13-25 | the Floyd–Warshall table after all n phases; it has n rows, and Paths.ReachTable states each cell |
| Paths.ReachTable | BinaryRelations/Binary/Closures.cs:19-22 | cell (i, j) of the table after k phases holds Reach(c, k, i, j) |
| Paths.PivotStable | BinaryRelations/Binary/Closures.cs:19-22 | row k and column k do not change during phase k, which makes the in-place update sound |
| Paths.ReachGivesWalk | BinaryRelations/Binary/Closures.cs:19-22 | a cell set after k phases has a walk from i to j whose inner nodes are all below k |
| Paths.WalkGivesReach | BinaryRelations/Binary/Closures.cs:19-22 | conversely, such a walk makes the cell set after k phases |
| Paths.ClosureMeansWalk | BinaryRelations/Binary/Closures.cs:13-25 | a transitive-closure cell (i, j) holds iff the input has a walk from i to j |
| Paths.ClosureContains | BinaryRelations/Binary/Closures.cs:18-22 | the transitive closure contains every cell of the input |
| Paths.ClosureTransitive | BinaryRelations/Binary/Closures.cs:13-25 | the transitive closure is transitive |
| Paths.ClosureLeast | BinaryRelations/Binary/Closures.cs:13-25 | the transitive closure lies inside every transitive relation that contains the input |
| Paths.ClosureOfTransitive | BinaryRelations/Binary/Closures.cs:13-25 | an already transitive relation is left unchanged |
| Paths.ClosureIdempotent | BinaryRelations/Binary/Closures.cs:13-25 | closing twice is the same as closing once |
| Predicates.Total | BinaryRelations/Binary/Properties.cs:16-32 | definition: every pair (i, j) is related |
| Predicates.AntiDiagonal | BinaryRelations/Binary/Properties.cs:39-57 | definition: a pair is related exactly when its two elements differ |
| Predicates.Diagonal | BinaryRelations/Binary/Properties.cs:64-82 | definition: a pair is related exactly when its two elements are equal (the identity) |
| Predicates.Reflexive | BinaryRelations/Binary/Properties.cs:89-105 | definition: every diagonal cell is set |
| Predicates.AntiReflexive | BinaryRelations/Binary/Properties.cs:112-128 | definition: no diagonal cell is set |
| Predicates.Symmetric | BinaryRelations/Binary/Properties.cs:135-151 | definition: for distinct i, j, cell (i, j) equals cell (j, i) |
| Predicates.Asymmetric | BinaryRelations/Binary/Properties.cs:158-175 | definition: no distinct pair is related in both directions; the diagonal is not examined |
| Predicates.AntiSymmetric | BinaryRelations/Binary/Properties.cs:182-198 | definition as the scan decides it: every distinct pair is related in exactly one direction |
| Predicates.Transitive | BinaryRelations/Binary/Properties.cs:205-225 | definition: c[i][k] and c[k][j] together give c[i][j] |
| Predicates.NegativeTransitive | BinaryRelations/Binary/Properties.cs:232-236 | definition: the complement is transitive |
| Predicates.Connex | BinaryRelations/Binary/Properties.cs:291-310 | definition: every distinct pair is related in at least one direction |
| Predicates.TransitiveIffProductInside | BinaryRelations/Binary/Properties.cs:205-225 | a relation is transitive iff its product with itself lies inside it |
| Predicates.NegativeTransitiveMeaning | BinaryRelations/Binary/Properties.cs:232-236 | negative transitivity (transitivity of the complement) holds iff every related pair (i, j) has c[i][k] or c[k][j] for every k |
| Predicates.AntiSymmetricIsAsymmetricConnex | BinaryRelations/Binary/Properties.cs:182-198 | as coded, antisymmetry holds iff the relation is both asymmetric and connex |
| Predicates.SymmetricIffSelfConverse | BinaryRelations/Binary/Properties.cs:135-151 | symmetric iff equal to its reverse |
| Predicates.ConversePreservesAntiSymmetric | BinaryRelations/Binary/Properties.cs:182-198 | the reverse is antisymmetric iff the relation is |
| Predicates.ConversePreservesAsymmetric | BinaryRelations/Binary/Properties.cs:158-175 | the reverse is asymmetric iff the relation is |
| Predicates.ConversePreservesTransitive | BinaryRelations/Binary/Properties.cs:205-225 | the reverse is transitive iff the relation is |
| Predicates.ComplementSwapsDiagonalProperties | BinaryRelations/Binary/Properties.cs:39-128 | reflexive iff the complement is antireflexive; diagonal iff the complement is antidiagonal |
| Properties.IsTotalRelation | BinaryRelations/Binary/Properties.cs:16-32 | guard errors first; otherwise true iff every cell is set |
| Properties.IsAntiDiagonalRelation | BinaryRelations/Binary/Properties.cs:39-57 | guard errors first; otherwise true iff exactly the off-diagonal cells are set |
| Properties.IsDiagonalRelation | BinaryRelations/Binary/Properties.cs:64-82 | guard errors first; otherwise true iff exactly the diagonal cells are set |
| Properties.IsReflexive | BinaryRelations/Binary/Properties.cs:89-105 | guard errors first; otherwise true iff the whole diagonal is set |
| Properties.IsAntiReflexive | BinaryRelations/Binary/Properties.cs:112-128 | guard errors first; otherwise true iff no diagonal cell is set |
| Properties.IsSymmetric | BinaryRelations/Binary/Properties.cs:135-151 | guard errors first; otherwise true iff m[i, j] == m[j, i] for all i ≠ j |
| Properties.IsAsymmetric | BinaryRelations/Binary/Properties.cs:158-175 | guard errors first; otherwise true iff no i ≠ j has both m[i, j] and m[j, i] |
| Properties.IsAntiSymmetric | BinaryRelations/Binary/Properties.cs:182-198 | guard errors first; otherwise true iff m[i, j] != m[j, i] for all i ≠ j (exactly one direction) |
| Properties.IsTransitive | BinaryRelations/Binary/Properties.cs:205-225 | guard errors first; otherwise true iff m[i, k] and m[k, j] always imply m[i, j] |
| Properties.IsNegativeTransitive | BinaryRelations/Binary/Properties.cs:232-236 | guard errors first; otherwise true iff the complement is transitive |
| Properties.IsConnex | BinaryRelations/Binary/Properties.cs:291-310 | guard errors first; otherwise true iff every i ≠ j has m[i, j] or m[j, i] |
| DerivedProperties.NonTransitive | BinaryRelations/Binary/DerivedProperties.cs:13-17 | definition: neither transitive nor negatively transitive, each taken as the primitive check decides it |
| DerivedProperties.NonSymmetric | BinaryRelations/Binary/DerivedProperties.cs:24-28 | definition: neither symmetric nor antisymmetric, each taken as the primitive check decides it |
| DerivedProperties.Equivalence | BinaryRelations/Binary/DerivedProperties.cs:35-39 | definition: reflexive, symmetric and transitive, each taken as the primitive check decides it |
| DerivedProperties.PartialEquivalence | BinaryRelations/Binary/DerivedProperties.cs:46-50 | definition: symmetric and transitive, each taken as the primitive check decides it |
| DerivedProperties.NonStrictOrder | BinaryRelations/Binary/DerivedProperties.cs:57-61 | definition: reflexive, antisymmetric and transitive, each taken as the primitive check decides it |
| DerivedProperties.StrictOrder | BinaryRelations/Binary/DerivedProperties.cs:68-72 | definition: antireflexive, antisymmetric and transitive, each taken as the primitive check decides it |
| DerivedProperties.LinearOrder | BinaryRelations/Binary/DerivedProperties.cs:79-83 | definition: reflexive, antisymmetric, transitive and connex, each taken as the primitive check decides it |
| DerivedProperties.PartialOrder | BinaryRelations/Binary/DerivedProperties.cs:90-94 | definition: reflexive, antisymmetric and transitive, each taken as the primitive check decides it |
| DerivedProperties.StrictPartialOrder | BinaryRelations/Binary/DerivedProperties.cs:101-105 | definition: antireflexive, asymmetric and transitive, each taken as the primitive check decides it |
| DerivedProperties.StrictLinearOrder | BinaryRelations/Binary/DerivedProperties.cs:112-116 | definition: antireflexive, asymmetric, transitive and connex, each taken as the primitive check decides it |
| DerivedProperties.TotalOrder | BinaryRelations/Binary/DerivedProperties.cs:123-127 | definition: reflexive, transitive and connex, each taken as the primitive check decides it |
| DerivedProperties.PreOrder | BinaryRelations/Binary/DerivedProperties.cs:134-138 | definition: reflexive and transitive, each taken as the primitive check decides it |
| DerivedProperties.StrictPreOrder | BinaryRelations/Binary/DerivedProperties.cs:145-149 | definition: antireflexive and transitive, each taken as the primitive check decides it |
| DerivedProperties.Tournament | BinaryRelations/Binary/DerivedProperties.cs:156-160 | definition: antireflexive and asymmetric, each taken as the primitive check decides it |
| DerivedProperties.Dependency | BinaryRelations/Binary/DerivedProperties.cs:167-171 | definition: reflexive and symmetric, each taken as the primitive check decides it |
| DerivedProperties.PartialOrderIsNonStrictOrder | BinaryRelations/Binary/DerivedProperties.cs:57-94 | IsPartialOrder and IsNonStrictOrder are the same predicate |
| DerivedProperties.LinearOrderImplies | BinaryRelations/Binary/DerivedProperties.cs:79-127 | a linear order is both a partial order and a total order |
| DerivedProperties.EquivalenceImplies | BinaryRelations/Binary/DerivedProperties.cs:35-171 | an equivalence is a partial equivalence, a preorder and a dependency |
| DerivedProperties.StrictOrdersChain | BinaryRelations/Binary/DerivedProperties.cs:101-160 | strict linear order implies strict partial order, which implies strict preorder and tournament |
| DerivedProperties.AntiSymmetricOrdersAreLinear | BinaryRelations/Binary/DerivedProperties.cs:57-116 | with antisymmetry as coded, a partial order is always linear and a strict order is always strict-linear |
| DerivedProperties.StrictPreOrderIsStrictPartialOrder | BinaryRelations/Binary/DerivedProperties.cs:101-149 | an antireflexive transitive relation is asymmetric, so strict preorder and strict partial order coincide |
| DerivedProperties.TransitiveAcyclicIffAntiReflexive | BinaryRelations/Binary/Properties.cs:238-257 | a transitive relation is acyclic iff it is antireflexive |
| DerivedProperties.NonSymmetricMeaning | BinaryRelations/Binary/DerivedProperties.cs:24-28 | non-symmetric (neither symmetric nor antisymmetric) iff some distinct pair differs between the two directions and some distinct pair agrees |
| DerivedProperties.NonTransitiveMeaning | BinaryRelations/Binary/DerivedProperties.cs:13-17 | non-transitive iff a witness breaks transitivity and another witness breaks negative transitivity |
| Extremums.ExtremumsOf | BinaryRelations/Binary/Extremums.cs:44-62 | definition: the elements 0..n-1 whose row (or column) passes the rule of the kind, in ascending order; Extremums.Select states its properties |
| Extremums.Select | BinaryRelations/Binary/Extremums.cs:49-62 | the yielded indices are strictly ascending, hence without duplicates; they lie below the bound; they are exactly the qualifying elements |
| Extremums.RuleHolds | BinaryRelations/Binary/Extremums.cs:51-58 | the scan with the `rulePassing` flag and `break` returns true iff element i meets the rule for its kind |
| Extremums.Enumerate | BinaryRelations/Binary/Extremums.cs:49-62 | the outer loop yields exactly ExtremumsOf for the kind, in ascending order |
| Extremums.GetMaximums | BinaryRelations/Binary/Extremums.cs:44-64 | guard errors first; otherwise the ascending list of the i whose row is all true |
| Extremums.GetMinimums | BinaryRelations/Binary/Extremums.cs:72-92 | guard errors first; otherwise the ascending list of the i whose column is all true |
| Extremums.GetMajorants | BinaryRelations/Binary/Extremums.cs:100-120 | guard errors first; otherwise the ascending list of the i whose column is all false |
| Extremums.GetMinorants | BinaryRelations/Binary/Extremums.cs:128-148 | guard errors first; otherwise the ascending list of the i whose row is all false |
| Extremums.HasExtremum | BinaryRelations/Binary/Extremums.cs:15-36 | guard errors first; otherwise true iff some element meets the rule of the given kind |
| Extremums.MaximumIsNotMinorant | BinaryRelations/Binary/Extremums.cs:44-148 | no element is both a maximum and a minorant, nor both a minimum and a majorant |
| Graph.Trues | BinaryRelations/Binary/Properties.cs:275-283 | the out-neighbours of a row: strictly ascending and exactly the set columns |
| Graph.GetConnectedEdges | BinaryRelations/Binary/Properties.cs:275-283 | null faults with NullReferenceException; a node outside [0, n) gives ArgumentOutOfRangeException("node"); otherwise the ascending out-neighbours of the node |
| Graph.HasCycle | BinaryRelations/Binary/Properties.cs:259-267 | definition: the node is on the path, or the search from some out-neighbour, with the node added to the path, succeeds; it terminates because the path grows within the n nodes |
| Graph.Acyclic | BinaryRelations/Binary/Properties.cs:238-257 | definition of the intended property: no route through the relation comes back to a node it has left |
| Graph.SearchCycle | BinaryRelations/Binary/Properties.cs:259-267 | the recursive search returns HasCycle of the node and path set; it terminates because the path set grows and stays within the n nodes |
| Graph.HasCycleMeansRevisit | BinaryRelations/Binary/Properties.cs:259-267 | the search finds a cycle iff some route from the node reaches a node already on the path |
| Graph.HasCycleGivesRoute | BinaryRelations/Binary/Properties.cs:259-267 | a positive search has a witnessing route that revisits the path |
| Graph.RouteGivesHasCycle | BinaryRelations/Binary/Properties.cs:259-267 | a route that revisits the path makes the search from its first node positive |
| Graph.CycleIsFound | BinaryRelations/Binary/Properties.cs:259-267 | a node on a cycle makes the search started from it positive |
| Graph.FoundIsCycle | BinaryRelations/Binary/Properties.cs:259-267 | a positive search from an empty path implies some node lies on a cycle |
| Graph.AcyclicIffNoSearchFindsCycle | BinaryRelations/Binary/Properties.cs:238-267 | a relation is acyclic (no node reaches itself) iff the search from every node finds nothing |
| Graph.SearchStart | BinaryRelations/Binary/Properties.cs:248-255 | the stop node of the loop after it has looked at node f - 1 is a node of the relation |
| Graph.SplitStart | BinaryRelations/Binary/Properties.cs:246-255 | the start node of the single search is a node of the relation: node 0 when it has out-neighbours, otherwise where the post-incrementing loop stops |
| Graph.SplitStartSkipsPastFirst | BinaryRelations/Binary/Properties.cs:248-255 | when node 0 has no out-neighbours, the post-increment makes the search start one past the first node in [1, n-2] that has some |
| Graph.SkipChildless | BinaryRelations/Binary/Properties.cs:248-255 | the while loop stops on the start node SplitStart describes |
| Graph.IsAcyclic | BinaryRelations/Binary/Properties.cs:244-257 | guard errors first; an empty relation gives ArgumentOutOfRangeException("node"); otherwise the negation of one search from the start node the loop picks |
| Graph.SplitStartMissesSelfLoop | BinaryRelations/Binary/Properties.cs:244-257 | with a single self-loop on node 1 of three, the search starts at node 2 and reports acyclic, although the relation has a cycle |
| Graph.IsAcyclicEveryNode | BinaryRelations/Binary/Properties.cs:238-243 | guard errors first; otherwise true iff the relation is acyclic, as the doc comment defines it |
| LegacyRelations.LegacyIsAcyclic | BinaryRelations/BinaryRelations.cs:908-918 | guard errors first; if node n-1 has no out-neighbours (or n = 0) the pre-increment runs past the last node and throws ArgumentOutOfRangeException("node"); otherwise one search from node n-1 |
| LegacyRelations.LegacyThrowsOnChain | BinaryRelations/BinaryRelations.cs:908-918 | the legacy check, run on the acyclic chain 0→1→2 (node 2 has no out-neighbours), returns ArgumentOutOfRangeException("node") instead of an answer |
| Helpers.Identity | BinaryRelations/Binary/Helpers.cs:26-37 | an n×n diagonal relation |
| Helpers.GetDiagonalRelation | BinaryRelations/Binary/Helpers.cs:26-37 | len ≤ 0 gives ArgumentOutOfRangeException("len"); otherwise a fresh len×len array that is the identity relation |
| Helpers.GetDiagonalRelationOf | BinaryRelations/Binary/Helpers.cs:15-19 | no null guard, so null faults with NullReferenceException; non-square input gives ArgumentNullException("array1"); size 0 gives ArgumentOutOfRangeException("len"); otherwise the identity of the input's size |
| Helpers.IdentityIsUnit | BinaryRelations/Binary/Helpers.cs:26-37 | the identity is reflexive and a two-sided unit of Product |
| Helpers.ReflexiveClosureIsUnionWithIdentity | BinaryRelations/Binary/Closures.cs:33-45 | ReflexiveClosure(m) equals Union(m, GetDiagonalRelation(m)) |
| MatrixExtensions.Transposed | BinaryRelations/Matrix/MatrixExtensions.cs:90-102 | a rows×cols grid becomes a cols×rows grid with t[j][i] == g[i][j] |
| MatrixExtensions.TransposedTwice | BinaryRelations/Matrix/MatrixExtensions.cs:90-102 | transposing twice gives the original grid |
| MatrixExtensions.FillVector | BinaryRelations/Matrix/MatrixExtensions.cs:13-25 | null gives ArgumentNullException("array"); otherwise every element becomes the value, in place, and the same array is returned |
| MatrixExtensions.FillMatrix | BinaryRelations/Matrix/MatrixExtensions.cs:27-42 | null gives ArgumentNullException("array"); otherwise only [0, n)×[0, n) with n the row count is written, in place; with fewer columns than rows it faults after filling the first row |
| MatrixExtensions.GetRow | BinaryRelations/Matrix/MatrixExtensions.cs:48-57 | null faults; a row out of range faults unless there are no columns; otherwise a fresh vector with r[i] == m[row, i] |
| MatrixExtensions.GetCol | BinaryRelations/Matrix/MatrixExtensions.cs:67-76 | null faults; a column out of range faults unless there are no rows; otherwise a fresh vector with r[i] == m[i, col] |
| MatrixExtensions.SetRow | BinaryRelations/Matrix/MatrixExtensions.cs:59-65 | overwrites exactly the given row from the vector and leaves every other cell unchanged; a short vector faults after writing the cells it has |
| MatrixExtensions.SetCol | BinaryRelations/Matrix/MatrixExtensions.cs:78-84 | overwrites exactly the given column from the vector and leaves every other cell unchanged; a short vector faults after writing the cells it has |
| MatrixExtensions.Transpose | BinaryRelations/Matrix/MatrixExtensions.cs:90-102 | as written the result is allocated rows×cols, so a non-square matrix with no zero dimension faults; otherwise r[j, i] == a[i, j] |
| MatrixExtensions.OneRowTransposeFaults | BinaryRelations/Matrix/MatrixExtensions.cs:90-102 | a 1×2 or 2×1 matrix makes the as-written Transpose fault; a square one does not |
| MatrixExtensions.TransposeRectangular | BinaryRelations/Matrix/MatrixExtensions.cs:90-102 | with the result allocated cols×rows it never faults and gives Transposed of the input |
| Combinatorics.Permutations | BinaryRelations/Matrix/MatrixExtensions.cs:573-589 | definition: for each item in turn, that item followed by every (k-1)-item result on the items after it; k == 1 yields each item alone, and a k that never reaches 1 yields nothing |
| Combinatorics.PermutationsSound | BinaryRelations/Matrix/MatrixExtensions.cs:573-589 | every yielded sequence has k items and is a subsequence of the range (a combination, not a permutation) |
| Combinatorics.PermutationsComplete | BinaryRelations/Matrix/MatrixExtensions.cs:573-589 | every non-empty subsequence of the range is yielded for its own length |
| Combinatorics.PermutationsCount | BinaryRelations/Matrix/MatrixExtensions.cs:573-589 | the number yielded is the binomial coefficient C(n, k) for k ≥ 1, and 0 for k < 1 |
| Combinatorics.SubsequenceHead | BinaryRelations/Matrix/MatrixExtensions.cs:573-589 | the first item of a non-empty subsequence is an item of the range, at an index the lemma returns |
| Combinatorics.PermutationsAscending | BinaryRelations/Matrix/MatrixExtensions.cs:573-589 | on a range whose items ascend by a key, consecutive results ascend lexicographically by that key |
| Combinatorics.PermutationsRename | BinaryRelations/Matrix/MatrixExtensions.cs:573-589 | renaming the items of the range renames the results item by item: the order depends only on positions |
| Combinatorics.PermutationsInIndexOrder | BinaryRelations/Matrix/MatrixExtensions.cs:573-589 | the results are yielded in ascending lexicographic order of the positions they take from the range |
| Combinatorics.CartesianProduct | BinaryRelations/Matrix/MatrixExtensions.cs:555-564 | the number of tuples is the product of the sequence lengths; the order is stated by CartesianProductNested and CartesianProductAt |
| Combinatorics.CartesianProductMembers | BinaryRelations/Matrix/MatrixExtensions.cs:555-564 | a tuple is yielded iff it takes one item from each sequence, in order |
| Combinatorics.ExtendOrder | BinaryRelations/Matrix/MatrixExtensions.cs:559-563 | one Aggregate step puts the tuple from prefix a and item b at index a * (length of the new sequence) + b: prefixes outermost, new items innermost |
| Combinatorics.CartesianProductNested | BinaryRelations/Matrix/MatrixExtensions.cs:555-564 | the product is in nested-loop order, the last sequence varying fastest: tuple a * len + b is the a-th tuple of the earlier sequences followed by item b of the last |
| Combinatorics.CartesianProductAt | BinaryRelations/Matrix/MatrixExtensions.cs:555-564 | the tuple taking item d[i] of each sequence i sits at the mixed-radix rank of d (last index least significant): the tuples come in lexicographic order of the item indices they take |
| Combinatorics.SizeGroup | BinaryRelations/Matrix/MatrixExtensions.cs:573-589 | for k ≥ 1 the k-group has C(n, k) members, which are exactly the k-item subsequences |
| Combinatorics.CartesianProductDistinctPairs | BinaryRelations/Matrix/MatrixExtensions.cs:566-571 | a negative size gives ArgumentOutOfRangeException("count"); otherwise group i holds exactly the (i+1)-item subsequences of start..start+size-1, C(size, i+1) of them, in ascending lexicographic order |
| Combinatorics.GroupsBySize | BinaryRelations/Matrix/MatrixExtensions.cs:566-571 | the groups built for sizes 1 to size have the counts and members stated above |
| Combinatorics.GroupsAscending | BinaryRelations/Matrix/MatrixExtensions.cs:566-571 | each group built on the range lists its subsequences in ascending lexicographic order |
| MatrixCommon.AddOf | BinaryRelations/Matrix/MatrixCommon.cs:102-117 | cellwise sum |
| MatrixCommon.SubtractOf | BinaryRelations/Matrix/MatrixCommon.cs:329-343 | cellwise difference |
| MatrixCommon.Plus | BinaryRelations/Matrix/MatrixCommon.cs:159-167 | elementwise sum over the first vector's length |
| MatrixCommon.Minus | BinaryRelations/Matrix/MatrixCommon.cs:244-252 | elementwise difference over the first vector's length |
| MatrixCommon.Negated | BinaryRelations/Matrix/MatrixCommon.cs:381-384 | every element negated |
| MatrixCommon.Shifted | BinaryRelations/Matrix/MatrixCommon.cs:12-27 | the value added to every cell |
| MatrixCommon.Scaled | BinaryRelations/Matrix/MatrixCommon.cs:604-619 | every cell multiplied by x |
| MatrixCommon.MatMul | BinaryRelations/Matrix/MatrixCommon.cs:720-739 | cell (i, j) is the dot product of row i of the first with column j of the second |
| MatrixCommon.AddSubtractInverse | BinaryRelations/Matrix/MatrixCommon.cs:329-343 | subtracting what was added gives back the original matrix |
| MatrixCommon.MinusUndoesPlus | BinaryRelations/Matrix/MatrixCommon.cs:244-252 | vector subtraction undoes vector addition |
| MatrixCommon.MinusIsPlusNegated | BinaryRelations/Matrix/MatrixCommon.cs:244-252 | subtracting a vector is adding its opposite |
| MatrixCommon.NegatedInvolutive | BinaryRelations/Matrix/MatrixCommon.cs:381-384 | Opposite applied twice gives the original vector |
| MatrixCommon.ShiftBack | BinaryRelations/Matrix/MatrixCommon.cs:12-27 | adding v and then -v gives the original matrix |
| MatrixCommon.ScaledDistributes | BinaryRelations/Matrix/MatrixCommon.cs:604-619 | scaling distributes over matrix addition |
| MatrixCommon.DotCommutes | BinaryRelations/Matrix/MatrixCommon.cs:400-408 | the dot product is symmetric in its two vectors |
| MatrixCommon.DotAdds | BinaryRelations/Matrix/MatrixCommon.cs:400-408 | the dot product is additive in its first vector |
| MatrixCommon.AddScalar | BinaryRelations/Matrix/MatrixCommon.cs:12-27 | a fresh matrix of the same size with the value added to every cell |
| MatrixCommon.AddScalarToVector | BinaryRelations/Matrix/MatrixCommon.cs:63-74 | a fresh vector of the same length with the value added to every element |
| MatrixCommon.AddMatrices | BinaryRelations/Matrix/MatrixCommon.cs:102-117 | a second matrix smaller than the first in either dimension faults (unless the first is empty); otherwise the cellwise sum, sized like the first |
| MatrixCommon.AddVectors | BinaryRelations/Matrix/MatrixCommon.cs:159-167 | a shorter second vector faults; otherwise the elementwise sum over the first vector's length |
| MatrixCommon.SubtractVectors | BinaryRelations/Matrix/MatrixCommon.cs:244-252 | a shorter second vector faults; otherwise the elementwise difference over the first vector's length |
| MatrixCommon.AddMatrixVector | BinaryRelations/Matrix/MatrixCommon.cs:189-204 | `temp` is overwritten on every column, so r[i] is a[i, cols-1] + v[cols-1], or 0 with no columns; a vector shorter than a row faults |
| MatrixCommon.SubtractMatrixVector | BinaryRelations/Matrix/MatrixCommon.cs:274-289 | likewise r[i] is a[i, cols-1] - v[cols-1], or 0 with no columns; a vector shorter than a row faults |
| MatrixCommon.SubtractMatrices | BinaryRelations/Matrix/MatrixCommon.cs:329-343 | a second matrix smaller than the first in either dimension faults (unless the first is empty); otherwise the cellwise difference |
| MatrixCommon.Opposite | BinaryRelations/Matrix/MatrixCommon.cs:381-384 | a fresh vector with every element negated |
| MatrixCommon.DotProduct | BinaryRelations/Matrix/MatrixCommon.cs:400-408 | faults iff the second vector is shorter; otherwise the dot product over the first vector's length |
| MatrixCommon.MultiplyMatrixVector | BinaryRelations/Matrix/MatrixCommon.cs:513-528 | a vector shorter than a row faults; otherwise r[i] is row i dotted with the vector |
| MatrixCommon.MultiplyVectorMatrix | BinaryRelations/Matrix/MatrixCommon.cs:566-575 | as written the result has the vector's length and r[u] is the vector dotted with row u of the matrix; faults when the matrix is smaller than that |
| MatrixCommon.MultiplyScalar | BinaryRelations/Matrix/MatrixCommon.cs:604-619 | null gives ArgumentNullException("array1"); otherwise every cell multiplied by x |
| MatrixCommon.RowTimesColumn | BinaryRelations/Matrix/MatrixCommon.cs:731-734 | the k-loop sums row i of a times column j of b |
| MatrixCommon.FillRow | BinaryRelations/Matrix/MatrixCommon.cs:729-735 | row i of the result becomes row i of the product; other rows are unchanged |
| MatrixCommon.Multiply | BinaryRelations/Matrix/MatrixCommon.cs:720-739 | a fresh m×p matrix equal to the matrix product |
| MatrixCommon.VectorTimesColumn | BinaryRelations/Matrix/MatrixCommon.cs:566-575 | the vector folded against column u of the matrix |
| MatrixCommon.MultiplyRowVector | BinaryRelations/Matrix/MatrixCommon.cs:566-575 | corrected: one entry per column, entry u the vector dotted with column u |
| MatrixCommon.RowVectorIsOneRowProduct | BinaryRelations/Matrix/MatrixCommon.cs:566-575 | the corrected result is the single row of the matrix product [a]·M |
| MatrixCommon.VectorMatrixUsesRows | BinaryRelations/Matrix/MatrixCommon.cs:566-575 | for a = [1, 0] and M = [[0, 1], [0, 0]], entry 1 is 0 as written and 1 for the vector-matrix product |
| MatrixCommon.VectorMatrixIsMatrixVector | BinaryRelations/Matrix/MatrixCommon.cs:513-575 | on a square matrix the as-written vector×matrix gives the same entries as matrix×vector |
| MatrixCommon.Decrement | BinaryRelations/Matrix/MatrixCommon.cs:794 | `n -= 1` on a 32-bit int: the result is n - 1 modulo 2^32 |
| MatrixCommon.StepsDecrease | BinaryRelations/Matrix/MatrixCommon.cs:787-796 | each pass of the loop reduces the passes still to go before n == 1 by one, so the loop ends even for n ≤ 0 |
| MatrixCommon.MatrixPower | BinaryRelations/Matrix/MatrixCommon.cs:787-796 | n == 1 returns the input array itself, whatever its shape; on a square matrix any other n gives the matrix squared (n - 1) mod 2^32 times, i.e. A^(2^(n-1)) rather than A^n |
| MatrixCommon.PowerOfTwoByThree | BinaryRelations/Matrix/MatrixCommon.cs:787-796 | for [[2]] and n = 3 the loop gives [[16]], while the third power is [[8]] |
| MatrixCommon.SquaringsOneByOne | BinaryRelations/Matrix/MatrixCommon.cs:787-796 | on a 1×1 matrix [[x]], s squarings give [[x^(2^s)]] |
| MatrixCommon.MatrixPowerCorrected | BinaryRelations/Matrix/MatrixCommon.cs:787-796 | corrected: n == 1 returns the input, whatever its shape; n < 1 gives ArgumentOutOfRangeException("n"); otherwise, on a square matrix, A^n by repeated multiplication |
| MatrixCommon.CorrectedPowerOneByOne | BinaryRelations/Matrix/MatrixCommon.cs:787-796 | on a 1×1 matrix [[x]] the corrected power gives [[x^n]] |
| RoomSearch.IsNeighbourStrictCross | BinaryRelations/Matrix/RoomSearch.cs:45-53 | definition as written: each coordinate may stay or move by one, except that the two moves may not both be +1 or both be -1 |
| RoomSearch.NeighbourStrictCrossAccepts | BinaryRelations/Matrix/RoomSearch.cs:45-53 | the test accepts exactly the same cell, the four orthogonal neighbours and the two offsets (1, -1) and (-1, 1) |
| RoomSearch.NeighbourStrictCrossSymmetric | BinaryRelations/Matrix/RoomSearch.cs:45-53 | the test gives the same answer with its arguments swapped |
| RoomSearch.StrictCrossAcceptsDiagonal | BinaryRelations/Matrix/RoomSearch.cs:45-53 | it accepts the anti-diagonal offsets (1, -1) and (-1, 1), despite the "excluding diagonals" comments, but rejects (1, 1) |
| RoomSearch.CrossNeighbourIsManhattanOne | BinaryRelations/Matrix/RoomSearch.cs:45-53 | corrected: accepts iff the Manhattan distance is at most 1, and is symmetric |
| RoomSearch.FirstAdjacentRoom | BinaryRelations/Matrix/RoomSearch.cs:30-31 | returns the first listed room, in rooms order, holding a cell the test accepts next to the new cell: no earlier listed room holds one; none exactly when no listed room holds one |
| RoomSearch.Target | BinaryRelations/Matrix/RoomSearch.cs:30-35 | the list a room cell is added to is the current list or one of the listed rooms |
| RoomSearch.DiagonalCellJoinsRoom | BinaryRelations/Matrix/RoomSearch.cs:30-35 | because the test accepts the anti-diagonal, a room cell at (0, 1) is added to the listed room holding (1, 0), not to the current list |
| RoomSearch.ExtendsMeans | BinaryRelations/Matrix/RoomSearch.cs:17-43 | store growth, as stated for the recursion, means every earlier list is a prefix of the list at its place |
| RoomSearch.ExtendsTransitive | BinaryRelations/Matrix/RoomSearch.cs:17-43 | store growth composes across successive calls |
| RoomSearch.ExtendsByFiling | BinaryRelations/Matrix/RoomSearch.cs:25-35 | adding one cell to a list, or a new empty list, is store growth |
| RoomSearch.ListedMeans | BinaryRelations/Matrix/RoomSearch.cs:37-38 | the rooms growth relation used by the recursion is the prefix order on rooms |
| RoomSearch.ListedTransitive | BinaryRelations/Matrix/RoomSearch.cs:37-38 | rooms growth composes across successive calls |
| RoomSearch.ClosedFromOriginCoversAll | BinaryRelations/Matrix/RoomSearch.cs:39-42 | a visited set that holds (0, 0) and is closed under the four moves covers the whole grid |
| RoomSearch.SharedCellSameList | BinaryRelations/Matrix/RoomSearch.cs:25-38 | no cell sits in two different lists of the store |
| RoomSearch.ResolvedRoomsDisjoint | BinaryRelations/Matrix/RoomSearch.cs:25-38 | two rooms that share a cell are the same list |
| RoomSearch.AppendFreshKeepsDistinct | BinaryRelations/Matrix/RoomSearch.cs:33-35 | adding a cell found in no list keeps the lists disjoint |
| RoomSearch.RoomSearcher.RoomsHoldRoomCells | BinaryRelations/Matrix/RoomSearch.cs:23-38 | once every cell is visited, the rooms hold only in-bounds cells equal to roomId, and every such cell is in some room |
| RoomSearch.RoomSearcher.constructor | BinaryRelations/Matrix/RoomSearch.cs:10-13 | a fresh all-false visited array of the grid's size, no lists and no rooms |
| RoomSearch.RoomSearcher.Visit | BinaryRelations/Matrix/RoomSearch.cs:23-38 | marks exactly the one new cell visited, so the unvisited set strictly shrinks; a room cell is appended to the list Target picks and the current list is returned; any other cell adds a new empty list and returns it; rooms gains the returned list exactly when it is non-empty |
| RoomSearch.RoomSearcher.File | BinaryRelations/Matrix/RoomSearch.cs:25-38 | a room cell is appended to the list Target picks (first adjacent listed room, else the current list) and the current list is returned; any other cell appends a new empty list and returns it; rooms gains the returned list exactly when it is non-empty; the store stays disjoint and every visited room cell stays listed |
| RoomSearch.RoomSearcher.PlaceRoomCell | BinaryRelations/Matrix/RoomSearch.cs:27-36 | the store becomes the old store with (x, y) appended to the list Target picks, and rooms are unchanged; the store stays disjoint; afterwards the cell is in a listed room or in the current list |
| RoomSearch.RoomSearcher.StartList | BinaryRelations/Matrix/RoomSearch.cs:25 | a new empty list is added to the store; rooms are unchanged |
| RoomSearch.RoomSearcher.Append | BinaryRelations/Matrix/RoomSearch.cs:33-35 | the cell is appended to exactly one list and nothing else changes |
| RoomSearch.RoomSearcher.ListRoom | BinaryRelations/Matrix/RoomSearch.cs:37-38 | the list is appended to rooms (a reference, so later additions show through) and nothing else changes |
| RoomSearch.RoomSearcher.RoomCore | BinaryRelations/Matrix/RoomSearch.cs:17-43 | keeps the invariant; every earlier list survives as a prefix of its new value and earlier rooms stay a prefix of rooms; only adds visited cells; an in-bounds start cell ends up visited; every cell it newly visits has its in-bounds orthogonal neighbours visited |
| RoomSearch.RoomSearcher.Spread | BinaryRelations/Matrix/RoomSearch.cs:39-42 | the four recursive calls keep the invariant and grow the store and rooms as RoomCore does, and leave every in-bounds orthogonal neighbour of the cell visited |
| RoomSearch.RoomSearcher.Search | BinaryRelations/Matrix/RoomSearch.cs:13 | the search from (0, 0) visits every in-bounds cell |
| RoomSearch.RoomSearch | BinaryRelations/Matrix/RoomSearch.cs:8-15 | every listed cell is in bounds and equals roomId; every cell equal to roomId is in some room; two rooms that share a cell are the same list |

## Left out

- Floating point: the `double`/`float` overloads in `MatrixCommon.cs` and `MatrixExtensions.cs` and `InverseMatrixHelpers.cs`. The float `Dot`/`Cross`/`Normalize` sit inside unresolved merge-conflict markers at `MatrixCommon.cs:460-508`.
- The generic `Add`/`Subtract`/`Multiply`/`MatrixPower`/`MultiplyRecursively` in `MatrixExtensions.cs`: they compile `System.Linq.Expressions` at run time through `InlineOperation` into a static cache, which is a foreign call plus global state. The jagged-array `Multiply` overloads in `MatrixCommon.cs` are left out as well.
- `Print`, `PrintThrough`, `Cast` and `IsReferenceSequenceEqualTo` (console and writer I/O, `Convert.ChangeType`, CLR boxing), and the random matrix builders: I/O, foreign calls and randomness.
- `yield` laziness: the extremum finders, `GetConnectedEdges`, `Permutations`, `CartesianProduct` and `CartesianProductDistinctPairs` are modelled as eager sequences. The argument checks therefore fire at the call, where the source fires them at the first enumeration.
- The fifteen derived checks in `DerivedProperties.cs` are modelled as predicates on relation values. Each one first runs the same null-and-square guard as the primitive checks it combines, so its error cases are those of `Properties.IsReflexive` and the other primitive checks; that guard is not repeated for them.
- The tests also call `Narrowing` with one index or with three. The library's source has no such overload, so only the two-index range version is modelled.
- MatrixCommon.Multiply: requires cols(a) == rows(b) in place of the check `CheckCollRowRule`, whose body is not part of this model.
- MatrixCommon.AddScalar, MatrixCommon.AddScalarToVector, MatrixCommon.AddMatrices, MatrixCommon.SubtractMatrices, MatrixCommon.AddVectors, MatrixCommon.SubtractVectors, MatrixCommon.AddMatrixVector, MatrixCommon.SubtractMatrixVector, MatrixCommon.DotProduct, MatrixCommon.MultiplyMatrixVector, MatrixCommon.MultiplyVectorMatrix, MatrixCommon.Multiply, MatrixCommon.MatrixPower: take non-null arrays, because the source has no null guard there and a null only surfaces as a runtime NullReferenceException.
- MatrixCommon.Opposite: takes a non-null array; on a null array LINQ's `Select` throws ArgumentNullException, which the model excludes by type.
- MatrixCommon.AddScalar, MatrixCommon.AddMatrices, MatrixCommon.Multiply and the other integer operations: cell values are unbounded integers; the 32-bit wrap-around of unchecked C# `int` arithmetic on the cells is not modelled. Only the loop counter of `MatrixPower` is a 32-bit value.
- MatrixCommon.AddMatrices, MatrixCommon.SubtractMatrices: the fault is decided before the loops. The source throws at the first out-of-range read and drops the partly filled result, so the outcome is the same.
- MatrixCommon.Multiply, MatrixCommon.MultiplyRowVector: the inner loops are separate methods (RowTimesColumn, FillRow, VectorTimesColumn) that sum into a local before storing. The source adds into `r[i, j]` directly; the final cells are the same.
- Extremums.GetMaximums, Extremums.GetMinimums, Extremums.GetMajorants, Extremums.GetMinorants: the four copies of the scan share one loop, RuleHolds, which reads the cell each rule inspects.
- UnaryOperations.Narrowing: x1 and x2 are unbounded integers, so `x1--` does not wrap; with x1 equal to the least 32-bit integer the source's decrement wraps to the greatest and keeps no cell.
- Combinatorics.CartesianProductDistinctPairs: `Enumerable.Range` also throws when start + size - 1 exceeds the greatest 32-bit integer; that overflow case is not modelled.
- RoomSearch.RoomSearch: the grid is a non-null array; a null map, on which the source's `GetLength` call at `RoomSearch.cs:10` throws NullReferenceException, is not modelled.
- Combinatorics.CartesianProduct: the function's own contract states only the number of tuples; their order is stated beside it, by CartesianProductNested and CartesianProductAt.
- Combinatorics.Permutations: the range is a sequence value; a null source, on which `ToArray` throws ArgumentNullException when the results are first enumerated, is excluded by type.
- Combinatorics.CartesianProduct: the sequences are values; a null outer sequence, on which `Aggregate` throws ArgumentNullException, and a null inner sequence are not modelled.
- MatrixCommon.MatrixPower, MatrixCommon.MatrixPowerCorrected: a non-square matrix with n other than 1 reaches `CheckCollRowRule` inside `Multiply`, which is not part of this model, so those calls require a square matrix.
- RoomSearch.RoomSearch: the result is stated as a set of lists; how many times one list appears in `rooms` (a list can be added once per visited room cell) and the order of the lists are not stated.
- RoomSearch.RoomSearcher.RoomCore: the recursion depth, which can overflow the CLR stack on a large grid, is not modelled.

## Findings

| source | as written | input that shows it | evidently intended | confidence | as-written member | corrected member |
|---|---|---|---|---|---|---|
| BinaryRelations/Binary/Properties.cs:244-257 | the start-node loop post-increments, so when node 0 has no out-neighbours the single search starts one past the first node that has some, and cycles it cannot reach are missed | [[F,F,F],[F,T,F],[F,F,F]] (self-loop on node 1): the search starts at node 2 and the relation is reported acyclic | acyclic iff no node lies on a cycle, as the doc comment says | not executed | Graph.IsAcyclic, Graph.SplitStartMissesSelfLoop | Graph.IsAcyclicEveryNode |
| BinaryRelations/BinaryRelations.cs:908-918 | the legacy loop pre-increments until node n-1 has out-neighbours, so it throws whenever the last node has none | the chain [[F,T,F],[F,F,T],[F,F,F]] is acyclic but throws ArgumentOutOfRangeException | acyclic iff no node lies on a cycle | not executed | LegacyRelations.LegacyIsAcyclic, LegacyRelations.LegacyThrowsOnChain | Graph.IsAcyclicEveryNode |
| BinaryRelations/Matrix/MatrixExtensions.cs:90-102 | the result is allocated rows×cols, so a non-square input writes outside it | a 1×2 matrix faults with IndexOutOfRangeException | a cols×rows transpose | not executed | MatrixExtensions.Transpose, MatrixExtensions.OneRowTransposeFaults | MatrixExtensions.TransposeRectangular |
| BinaryRelations/Matrix/MatrixCommon.cs:787-796 | each pass squares the running matrix, giving A^(2^(n-1)); n ≤ 0 only ends after the 32-bit counter wraps | [[2]] with n = 3 gives [[16]] | A^n, with n < 1 rejected | not executed | MatrixCommon.MatrixPower, MatrixCommon.PowerOfTwoByThree | MatrixCommon.MatrixPowerCorrected, MatrixCommon.CorrectedPowerOneByOne |
| BinaryRelations/Matrix/MatrixCommon.cs:566-575 | vector×matrix reads `matrix[u, i]`, folding against row u, with one entry per vector element | a = [1, 0], M = [[0, 1], [0, 0]]: entry 1 is 0 | entry u is the vector dotted with column u, one entry per column | not executed | MatrixCommon.MultiplyVectorMatrix, MatrixCommon.VectorMatrixUsesRows | MatrixCommon.MultiplyRowVector, MatrixCommon.RowVectorIsOneRowProduct |
| BinaryRelations/Matrix/RoomSearch.cs:45-53 | the neighbour test accepts the anti-diagonal offsets (1, -1) and (-1, 1) | (0, 0) and (1, -1) are accepted as neighbours | only the four orthogonal neighbours (and the cell itself), as the "excluding diagonals" comments say | not executed | RoomSearch.NeighbourStrictCrossAccepts, RoomSearch.StrictCrossAcceptsDiagonal | RoomSearch.CrossNeighbourIsManhattanOne |

The operations with a finding keep their as-written behaviour in the rest of
the model: `RoomSearch.RoomSearcher` files cells with the as-written
neighbour test, and `Properties`' callers see the as-written `IsAcyclic`. The
corrected members sit beside them with the intended property proved.
