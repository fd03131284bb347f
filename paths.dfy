/** Walks in a relation and the reachability table that Floyd–Warshall
    computes, phase by phase. */
module Paths {
  import opened Matrices
  import opened Predicates

  /** A walk: at least two nodes, each related to the next. */
  predicate IsWalk(c: Relation, w: seq<nat>)
  {
    |w| >= 2 &&
    (forall t :: 0 <= t < |w| ==> w[t] < |c|) &&
    (forall t :: 0 <= t < |w| - 1 ==> c[w[t]][w[t + 1]])
  }

  /** Every intermediate node of the walk is below k. */
  predicate InnerBelow(w: seq<nat>, k: nat)
  {
    forall t :: 0 < t < |w| - 1 ==> w[t] < k
  }

  /** Floyd–Warshall's table after k phases: i reaches j using only
      intermediate nodes below k. */
  function Reach(c: Relation, k: nat, i: nat, j: nat): bool
    requires k <= |c| && i < |c| && j < |c|
  {
    if k == 0 then c[i][j]
    else Reach(c, k - 1, i, j) || (Reach(c, k - 1, i, k - 1) && Reach(c, k - 1, k - 1, j))
  }

  /** The whole table after k phases. */
  function ReachTable(c: Relation, k: nat): (t: Relation)
    requires k <= |c|
    ensures |t| == |c|
    ensures forall i, j :: 0 <= i < |c| && 0 <= j < |c| ==> t[i][j] == Reach(c, k, i, j)
  {
    seq(|c|, i requires 0 <= i < |c| => seq(|c|, j requires 0 <= j < |c| => Reach(c, k, i, j)))
  }

  /** The transitive closure: the table after all phases. */
  function ClosureOf(c: Relation): (t: Relation)
    ensures |t| == |c|
  {
    ReachTable(c, |c|)
  }

  /** Phase k leaves row k and column k as they were: this is what makes
      the in-place update sound. */
  lemma PivotStable(c: Relation, k: nat, x: nat)
    requires k < |c| && x < |c|
    ensures Reach(c, k + 1, x, k) == Reach(c, k, x, k)
    ensures Reach(c, k + 1, k, x) == Reach(c, k, k, x)
  {
  }

  // ---------------------------------------------------------------------
  // The table means walks
  // ---------------------------------------------------------------------

  lemma {:induction false} ReachGivesWalk(c: Relation, k: nat, i: nat, j: nat)
    requires k <= |c| && i < |c| && j < |c|
    requires Reach(c, k, i, j)
    ensures exists w :: IsWalk(c, w) && w[0] == i && w[|w| - 1] == j && InnerBelow(w, k)
  {
    if k == 0 {
      var w: seq<nat> := [i, j];
      assert IsWalk(c, w) && w[0] == i && w[|w| - 1] == j && InnerBelow(w, k);
    } else if Reach(c, k - 1, i, j) {
      ReachGivesWalk(c, k - 1, i, j);
      var w :| IsWalk(c, w) && w[0] == i && w[|w| - 1] == j && InnerBelow(w, k - 1);
      assert InnerBelow(w, k);
    } else {
      ReachGivesWalk(c, k - 1, i, k - 1);
      ReachGivesWalk(c, k - 1, k - 1, j);
      var u :| IsWalk(c, u) && u[0] == i && u[|u| - 1] == k - 1 && InnerBelow(u, k - 1);
      var v :| IsWalk(c, v) && v[0] == k - 1 && v[|v| - 1] == j && InnerBelow(v, k - 1);
      var w := u + v[1..];
      assert forall t :: |u| <= t < |w| ==> w[t] == v[t - |u| + 1];
      forall t | 0 <= t < |w| - 1 ensures c[w[t]][w[t + 1]] {
        if t < |u| - 1 {
        } else if t == |u| - 1 {
          assert w[t] == v[0] && w[t + 1] == v[1];
        } else {
          assert w[t] == v[t - |u| + 1] && w[t + 1] == v[t - |u| + 2];
        }
      }
      assert IsWalk(c, w) && w[0] == i && w[|w| - 1] == j && InnerBelow(w, k);
    }
  }

  lemma {:induction false} WalkGivesReach(c: Relation, k: nat, w: seq<nat>)
    requires k <= |c| && IsWalk(c, w) && InnerBelow(w, k)
    ensures Reach(c, k, w[0], w[|w| - 1])
    decreases k, |w|
  {
    if k == 0 {
      assert |w| == 2;
    } else if forall t :: 0 < t < |w| - 1 ==> w[t] != k - 1 {
      WalkGivesReach(c, k - 1, w);
    } else {
      var t :| 0 < t < |w| - 1 && w[t] == k - 1;
      var u, v := w[..t + 1], w[t..];
      assert IsWalk(c, u) && InnerBelow(u, k);
      assert forall s :: 0 <= s < |v| ==> v[s] == w[t + s];
      assert IsWalk(c, v) && InnerBelow(v, k);
      WalkGivesReach(c, k, u);
      WalkGivesReach(c, k, v);
      PivotStable(c, k - 1, w[0]);
      PivotStable(c, k - 1, w[|w| - 1]);
    }
  }

  /** The closure relates i to j iff a walk leads from i to j. */
  lemma ClosureMeansWalk(c: Relation, i: nat, j: nat)
    requires i < |c| && j < |c|
    ensures ClosureOf(c)[i][j] <==> exists w :: IsWalk(c, w) && w[0] == i && w[|w| - 1] == j
  {
    if ClosureOf(c)[i][j] {
      ReachGivesWalk(c, |c|, i, j);
    }
    if exists w :: IsWalk(c, w) && w[0] == i && w[|w| - 1] == j {
      var w :| IsWalk(c, w) && w[0] == i && w[|w| - 1] == j;
      WalkGivesReach(c, |c|, w);
    }
  }

  // ---------------------------------------------------------------------
  // Closure theorems
  // ---------------------------------------------------------------------

  /** The closure contains the relation. */
  lemma ClosureContains(c: Relation)
    ensures Subset(c, ClosureOf(c))
  {
    forall i, j | 0 <= i < |c| && 0 <= j < |c| && c[i][j] ensures ClosureOf(c)[i][j] {
      var w: seq<nat> := [i, j];
      assert IsWalk(c, w);
      ClosureMeansWalk(c, i, j);
    }
  }

  /** The closure is transitive. */
  lemma ClosureTransitive(c: Relation)
    ensures Transitive(ClosureOf(c))
  {
    var t := ClosureOf(c);
    forall i, j, k | 0 <= i < |c| && 0 <= j < |c| && 0 <= k < |c| && t[i][k] && t[k][j] ensures t[i][j] {
      ClosureMeansWalk(c, i, k);
      ClosureMeansWalk(c, k, j);
      var u :| IsWalk(c, u) && u[0] == i && u[|u| - 1] == k;
      var v :| IsWalk(c, v) && v[0] == k && v[|v| - 1] == j;
      var w := u + v[1..];
      assert forall s :: |u| <= s < |w| ==> w[s] == v[s - |u| + 1];
      forall s | 0 <= s < |w| - 1 ensures c[w[s]][w[s + 1]] {
        if s < |u| - 1 {
        } else if s == |u| - 1 {
          assert w[s] == v[0] && w[s + 1] == v[1];
        } else {
          assert w[s] == v[s - |u| + 1] && w[s + 1] == v[s - |u| + 2];
        }
      }
      assert IsWalk(c, w) && w[0] == i && w[|w| - 1] == j;
      ClosureMeansWalk(c, i, j);
    }
  }

  /** A walk in c is a single step of any transitive superset of c. */
  lemma {:induction false} WalkInsideTransitive(c: Relation, s: Relation, w: seq<nat>)
    requires |s| == |c| && Subset(c, s) && Transitive(s) && IsWalk(c, w)
    ensures s[w[0]][w[|w| - 1]]
    decreases |w|
  {
    if |w| > 2 {
      var rest := w[1..];
      assert IsWalk(c, rest);
      WalkInsideTransitive(c, s, rest);
      assert s[w[0]][w[1]] && s[w[1]][w[|w| - 1]];
    }
  }

  /** The closure is the least transitive relation containing c. */
  lemma ClosureLeast(c: Relation, s: Relation)
    requires |s| == |c| && Subset(c, s) && Transitive(s)
    ensures Subset(ClosureOf(c), s)
  {
    forall i, j | 0 <= i < |c| && 0 <= j < |c| && ClosureOf(c)[i][j] ensures s[i][j] {
      ClosureMeansWalk(c, i, j);
      var w :| IsWalk(c, w) && w[0] == i && w[|w| - 1] == j;
      WalkInsideTransitive(c, s, w);
    }
  }

  /** A transitive relation is its own closure, so closing twice changes
      nothing. */
  lemma ClosureOfTransitive(c: Relation)
    requires Transitive(c)
    ensures ClosureOf(c) == c
  {
    ClosureLeast(c, c);
    ClosureContains(c);
    Extensionality(ClosureOf(c), c);
  }

  lemma ClosureIdempotent(c: Relation)
    ensures ClosureOf(ClosureOf(c)) == ClosureOf(c)
  {
    ClosureTransitive(c);
    ClosureOfTransitive(ClosureOf(c));
  }
}
