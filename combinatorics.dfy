/** The combination generators: the one-item-per-sequence product of a list
    of sequences, and the k-element subsequences of a sequence. */
module Combinatorics {
  import opened Errors

  // ---------------------------------------------------------------------
  // k-element subsequences
  // ---------------------------------------------------------------------

  /** The library calls these permutations; they are the k-element
      subsequences of `range`, taking positions in increasing order: for
      each item, the item followed by every (k-1)-subsequence of what comes
      after it. A k that never reaches 1 yields nothing. */
  function Permutations<T>(range: seq<T>, k: int): seq<seq<T>>
    decreases |range|
  {
    if |range| == 0 then []
    else FirstItem(range, k) + Permutations(range[1..], k)
  }

  /** What the first item contributes. */
  function FirstItem<T>(range: seq<T>, k: int): seq<seq<T>>
    requires |range| > 0
    decreases |range|, 0
  {
    if k == 1 then [[range[0]]] else Prepend(range[0], Permutations(range[1..], k - 1))
  }

  function Prepend<T>(x: T, ss: seq<seq<T>>): (r: seq<seq<T>>)
    ensures |r| == |ss| && forall i :: 0 <= i < |ss| ==> r[i] == [x] + ss[i]
  {
    seq(|ss|, i requires 0 <= i < |ss| => [x] + ss[i])
  }

  /** s keeps some of the items of `range`, in their order. */
  predicate IsSubsequence<T(==)>(s: seq<T>, range: seq<T>)
    decreases |range|
  {
    |s| == 0 ||
    (|range| > 0 &&
      ((s[0] == range[0] && IsSubsequence(s[1..], range[1..])) || IsSubsequence(s, range[1..])))
  }

  /** Every generated sequence has k items taken from the range in order. */
  lemma {:induction false} PermutationsSound<T>(range: seq<T>, k: int, s: seq<T>)
    requires s in Permutations(range, k)
    ensures |s| == k && IsSubsequence(s, range)
    decreases |range|
  {
    if s in Permutations(range[1..], k) {
      PermutationsSound(range[1..], k, s);
    } else if k == 1 {
      assert s == [range[0]];
      assert s[1..] == [];
    } else {
      var rest := Permutations(range[1..], k - 1);
      var i :| 0 <= i < |rest| && Prepend(range[0], rest)[i] == s;
      PermutationsSound(range[1..], k - 1, rest[i]);
      assert s[1..] == rest[i];
    }
  }

  /** Every k-element subsequence is generated, for k >= 1. */
  lemma {:induction false} PermutationsComplete<T>(s: seq<T>, range: seq<T>)
    requires |s| >= 1 && IsSubsequence(s, range)
    ensures s in Permutations(range, |s|)
    decreases |range|
  {
    var k := |s|;
    if s[0] == range[0] && IsSubsequence(s[1..], range[1..]) {
      if k == 1 {
        assert s == [range[0]];
      } else {
        PermutationsComplete(s[1..], range[1..]);
        var rest := Permutations(range[1..], k - 1);
        var i :| 0 <= i < |rest| && rest[i] == s[1..];
        assert Prepend(range[0], rest)[i] == s;
        assert s in FirstItem(range, k);
      }
    } else {
      PermutationsComplete(s, range[1..]);
      assert Permutations(range, k) == FirstItem(range, k) + Permutations(range[1..], k);
    }
  }

  function Binomial(n: nat, k: nat): nat
  {
    if k == 0 then 1 else if n == 0 then 0 else Binomial(n - 1, k - 1) + Binomial(n - 1, k)
  }

  /** There are C(n, k) of them for k >= 1, and none for k <= 0. */
  lemma {:induction false} PermutationsCount<T>(range: seq<T>, k: int)
    ensures |Permutations(range, k)| == if k >= 1 then Binomial(|range|, k) else 0
    decreases |range|
  {
    if |range| > 0 {
      PermutationsCount(range[1..], k - 1);
      PermutationsCount(range[1..], k);
      assert |Permutations(range, k)| == |FirstItem(range, k)| + |Permutations(range[1..], k)|;
    }
  }

  /** a comes strictly before b when their items are compared by key, first
      item first. */
  predicate LexBefore<T>(key: T -> int, a: seq<T>, b: seq<T>)
    decreases |a|
  {
    |a| > 0 && |b| > 0 &&
    (key(a[0]) < key(b[0]) || (key(a[0]) == key(b[0]) && LexBefore(key, a[1..], b[1..])))
  }

  /** A non-empty subsequence starts with an item of the range. */
  lemma {:induction false} SubsequenceHead<T>(s: seq<T>, range: seq<T>) returns (j: nat)
    requires |s| >= 1 && IsSubsequence(s, range)
    ensures j < |range| && s[0] == range[j]
    decreases |range|
  {
    if s[0] == range[0] && IsSubsequence(s[1..], range[1..]) {
      j := 0;
    } else {
      var j' := SubsequenceHead(s, range[1..]);
      j := j' + 1;
    }
  }

  /** Over a range whose items have strictly increasing keys, the results
      come in strictly increasing lexicographic order of their keys. */
  lemma {:induction false} PermutationsAscending<T>(key: T -> int, range: seq<T>, k: int)
    requires forall i, j :: 0 <= i < j < |range| ==> key(range[i]) < key(range[j])
    ensures forall t :: 0 <= t < |Permutations(range, k)| - 1 ==>
      LexBefore(key, Permutations(range, k)[t], Permutations(range, k)[t + 1])
    decreases |range|
  {
    if |range| > 0 {
      var f, q := FirstItem(range, k), Permutations(range[1..], k);
      var p := Permutations(range, k);
      assert p == f + q;
      PermutationsAscending(key, range[1..], k);
      if k != 1 {
        PermutationsAscending(key, range[1..], k - 1);
      }
      forall t | 0 <= t < |p| - 1 ensures LexBefore(key, p[t], p[t + 1]) {
        if t + 1 < |f| {
          var r := Permutations(range[1..], k - 1);
          assert p[t] == [range[0]] + r[t] && p[t + 1] == [range[0]] + r[t + 1];
          assert p[t][1..] == r[t] && p[t + 1][1..] == r[t + 1];
        } else if t >= |f| {
          assert p[t] == q[t - |f|] && p[t + 1] == q[t - |f| + 1];
        } else {
          assert p[t] == f[t] && p[t + 1] == q[0];
          assert f[t][0] == range[0];
          PermutationsSound(range[1..], k, q[0]);
          PermutationsCount(range[1..], k);
          var j := SubsequenceHead(q[0], range[1..]);
          assert key(range[0]) < key(range[j + 1]);
        }
      }
    }
  }

  function MapItems<T, U>(g: T -> U, s: seq<T>): (r: seq<U>)
    ensures |r| == |s| && forall i :: 0 <= i < |s| ==> r[i] == g(s[i])
  {
    seq(|s|, i requires 0 <= i < |s| => g(s[i]))
  }

  function MapAll<T, U>(g: T -> U, ss: seq<seq<T>>): (r: seq<seq<U>>)
    ensures |r| == |ss| && forall i :: 0 <= i < |ss| ==> r[i] == MapItems(g, ss[i])
  {
    seq(|ss|, i requires 0 <= i < |ss| => MapItems(g, ss[i]))
  }

  /** The generator only moves items around: renaming the items of the
      range renames the results, in the same order. */
  lemma {:induction false} PermutationsRename<T, U>(g: T -> U, range: seq<T>, k: int)
    ensures Permutations(MapItems(g, range), k) == MapAll(g, Permutations(range, k))
    decreases |range|
  {
    if |range| > 0 {
      var mr := MapItems(g, range);
      assert mr[1..] == MapItems(g, range[1..]);
      PermutationsRename(g, range[1..], k);
      if k != 1 {
        PermutationsRename(g, range[1..], k - 1);
        var r := Permutations(range[1..], k - 1);
        forall i | 0 <= i < |r|
          ensures Prepend(mr[0], MapAll(g, r))[i] == MapItems(g, Prepend(range[0], r)[i])
        {
          assert [mr[0]] + MapItems(g, r[i]) == MapItems(g, [range[0]] + r[i]);
        }
        assert FirstItem(mr, k) == MapAll(g, FirstItem(range, k));
      } else {
        assert MapItems(g, [range[0]]) == [mr[0]];
        assert FirstItem(mr, k) == MapAll(g, FirstItem(range, k));
      }
      assert MapAll(g, Permutations(range, k))
          == MapAll(g, FirstItem(range, k)) + MapAll(g, Permutations(range[1..], k));
    }
  }

  /** Each item paired with its position. */
  function Indexed<T>(range: seq<T>): (r: seq<(int, T)>)
    ensures |r| == |range| && forall i :: 0 <= i < |range| ==> r[i] == (i, range[i])
  {
    seq(|range|, i requires 0 <= i < |range| => (i, range[i]))
  }

  /** The results are listed in increasing lexicographic order of the
      positions their items are taken from: result t is the items at the
      positions of the t-th position tuple, and those tuples increase. */
  lemma PermutationsInIndexOrder<T>(range: seq<T>, k: int)
    ensures var ix := Permutations(Indexed(range), k);
      Permutations(range, k) == MapAll((p: (int, T)) => p.1, ix) &&
      forall t :: 0 <= t < |ix| - 1 ==> LexBefore((p: (int, T)) => p.0, ix[t], ix[t + 1])
  {
    var second := (p: (int, T)) => p.1;
    assert MapItems(second, Indexed(range)) == range;
    PermutationsRename(second, Indexed(range), k);
    PermutationsAscending((p: (int, T)) => p.0, Indexed(range), k);
  }

  // ---------------------------------------------------------------------
  // Cartesian product
  // ---------------------------------------------------------------------

  /** One step of the fold: every tuple so far, extended by every item of
      the next sequence, tuples outermost. */
  function Extend<T>(acc: seq<seq<T>>, s: seq<T>): (r: seq<seq<T>>)
    ensures |r| == |acc| * |s|
  {
    if |acc| == 0 then []
    else seq(|s|, i requires 0 <= i < |s| => acc[0] + [s[i]]) + Extend(acc[1..], s)
  }

  /** The fold over the sequences, starting from the single empty tuple. */
  function CartesianProduct<T>(sequences: seq<seq<T>>): (r: seq<seq<T>>)
    ensures |r| == Product(sequences)
  {
    if |sequences| == 0 then [[]]
    else Extend(CartesianProduct(sequences[..|sequences| - 1]), sequences[|sequences| - 1])
  }

  /** The product of the lengths. */
  function Product<T>(sequences: seq<seq<T>>): nat
  {
    if |sequences| == 0 then 1
    else Product(sequences[..|sequences| - 1]) * |sequences[|sequences| - 1]|
  }

  lemma {:induction false} ExtendMembers<T>(acc: seq<seq<T>>, s: seq<T>, t: seq<T>)
    ensures t in Extend(acc, s) <==> |t| >= 1 && t[..|t| - 1] in acc && t[|t| - 1] in s
  {
    if |acc| > 0 {
      ExtendMembers(acc[1..], s, t);
      var head := seq(|s|, i requires 0 <= i < |s| => acc[0] + [s[i]]);
      assert t in Extend(acc, s) <==> t in head || t in Extend(acc[1..], s);
      if t in head {
        var i :| 0 <= i < |s| && head[i] == t;
        assert t[..|t| - 1] == acc[0];
      }
      if |t| >= 1 && t[..|t| - 1] == acc[0] && t[|t| - 1] in s {
        var i :| 0 <= i < |s| && s[i] == t[|t| - 1];
        assert head[i] == t;
      }
    }
  }

  /** Tuples outermost, items of s innermost: tuple a extended by item b
      sits at position a * |s| + b. */
  lemma {:induction false} ExtendOrder<T>(acc: seq<seq<T>>, s: seq<T>, a: nat, b: nat)
    requires a < |acc| && b < |s|
    ensures a * |s| + b < |Extend(acc, s)|
    ensures Extend(acc, s)[a * |s| + b] == acc[a] + [s[b]]
  {
    var head := seq(|s|, i requires 0 <= i < |s| => acc[0] + [s[i]]);
    assert Extend(acc, s) == head + Extend(acc[1..], s);
    if a > 0 {
      ExtendOrder(acc[1..], s, a - 1, b);
      assert a * |s| + b == |head| + ((a - 1) * |s| + b);
    }
  }

  /** The product lists its tuples in nested order, the last sequence
      varying fastest: the tuple at a * |last| + b is tuple a of the product
      of the other sequences followed by item b of the last one. */
  lemma CartesianProductNested<T>(sequences: seq<seq<T>>, a: nat, b: nat)
    requires |sequences| > 0
    requires a < |CartesianProduct(sequences[..|sequences| - 1])| && b < |sequences[|sequences| - 1]|
    ensures var last := sequences[|sequences| - 1];
      a * |last| + b < |CartesianProduct(sequences)| &&
      CartesianProduct(sequences)[a * |last| + b]
        == CartesianProduct(sequences[..|sequences| - 1])[a] + [last[b]]
  {
    ExtendOrder(CartesianProduct(sequences[..|sequences| - 1]), sequences[|sequences| - 1], a, b);
  }

  /** The mixed-radix rank of a choice of one index per sequence, the last
      index least significant. */
  function Rank<T>(sequences: seq<seq<T>>, d: seq<nat>): nat
    requires |d| == |sequences|
  {
    if |d| == 0 then 0
    else Rank(sequences[..|sequences| - 1], d[..|d| - 1]) * |sequences[|sequences| - 1]| + d[|d| - 1]
  }

  /** The tuple that takes item d[i] of sequence i. */
  function Picks<T>(sequences: seq<seq<T>>, d: seq<nat>): (t: seq<T>)
    requires |d| == |sequences| && forall i :: 0 <= i < |d| ==> d[i] < |sequences[i]|
    ensures |t| == |d| && forall i :: 0 <= i < |d| ==> t[i] == sequences[i][d[i]]
  {
    seq(|d|, i requires 0 <= i < |d| => sequences[i][d[i]])
  }

  /** The whole order: the tuple taking item d[i] of each sequence i sits at
      the rank of d, so the tuples come in lexicographic order of the item
      indices they take. */
  lemma {:induction false} CartesianProductAt<T>(sequences: seq<seq<T>>, d: seq<nat>)
    requires |d| == |sequences| && forall i :: 0 <= i < |d| ==> d[i] < |sequences[i]|
    ensures Rank(sequences, d) < |CartesianProduct(sequences)|
    ensures CartesianProduct(sequences)[Rank(sequences, d)] == Picks(sequences, d)
    decreases |d|
  {
    if |d| > 0 {
      var n := |d| - 1;
      var init, di := sequences[..n], d[..n];
      CartesianProductAt(init, di);
      CartesianProductNested(sequences, Rank(init, di), d[n]);
      assert Picks(sequences, d) == Picks(init, di) + [sequences[n][d[n]]];
    }
  }

  /** One item per sequence, each drawn from its sequence. */
  ghost predicate Drawn<T>(sequences: seq<seq<T>>, t: seq<T>)
  {
    |t| == |sequences| && forall i :: 0 <= i < |t| ==> t[i] in sequences[i]
  }

  lemma DrawnSplits<T>(sequences: seq<seq<T>>, t: seq<T>)
    requires |sequences| > 0
    ensures Drawn(sequences, t) <==>
      |t| >= 1 && Drawn(sequences[..|sequences| - 1], t[..|t| - 1]) && t[|t| - 1] in sequences[|sequences| - 1]
  {
    if |t| == |sequences| {
      var front, init := sequences[..|sequences| - 1], t[..|t| - 1];
      assert forall i :: 0 <= i < |init| ==> init[i] == t[i] && front[i] == sequences[i];
    }
  }

  /** A tuple is in the product iff it has one item per sequence, each
      drawn from its sequence. */
  lemma {:induction false} CartesianProductMembers<T>(sequences: seq<seq<T>>, t: seq<T>)
    ensures t in CartesianProduct(sequences) <==> Drawn(sequences, t)
    decreases |sequences|
  {
    if |sequences| > 0 {
      var n := |sequences|;
      var front := sequences[..n - 1];
      ExtendMembers(CartesianProduct(front), sequences[n - 1], t);
      DrawnSplits(sequences, t);
      if |t| >= 1 {
        CartesianProductMembers(front, t[..|t| - 1]);
      }
    }
  }

  // ---------------------------------------------------------------------
  // Subsets of a range, grouped by size
  // ---------------------------------------------------------------------

  /** start, start + 1, ..., start + size - 1. */
  function Range(start: int, size: nat): (r: seq<int>)
    ensures |r| == size && forall i :: 0 <= i < size ==> r[i] == start + i
  {
    seq(size, i requires 0 <= i < size => start + i)
  }

  /** The group of size k: C(|range|, k) subsequences, exactly those of
      length k. */
  lemma SizeGroup<T>(range: seq<T>, k: nat)
    requires k >= 1
    ensures |Permutations(range, k)| == Binomial(|range|, k)
    ensures forall s :: s in Permutations(range, k) <==> |s| == k && IsSubsequence(s, range)
  {
    PermutationsCount(range, k);
    forall s | |s| == k && IsSubsequence(s, range) ensures s in Permutations(range, k) {
      PermutationsComplete(s, range);
    }
    forall s | s in Permutations(range, k) ensures |s| == k && IsSubsequence(s, range) {
      PermutationsSound(range, k, s);
    }
  }

  /** For i = 1 .. size, the i-element subsequences of the range; a
      negative size is rejected by the range constructor. */
  function CartesianProductDistinctPairs(size: int, start: int): (r: Result<seq<seq<seq<int>>>>)
    ensures size < 0 <==> r == Throws(ArgumentOutOfRange("count"))
    ensures r.Ok? ==> |r.value| == size
    ensures r.Ok? ==> forall i :: 0 <= i < size ==> |r.value[i]| == Binomial(size, i + 1)
    ensures r.Ok? ==> forall i, s :: 0 <= i < size ==>
      (s in r.value[i] <==> |s| == i + 1 && IsSubsequence(s, Range(start, size)))
    ensures r.Ok? ==> forall i, t :: 0 <= i < size && 0 <= t < |r.value[i]| - 1 ==>
      LexBefore((x: int) => x, r.value[i][t], r.value[i][t + 1])
  {
    if size < 0 then Throws(ArgumentOutOfRange("count"))
    else
      GroupsBySize(start, size);
      GroupsAscending(start, size);
      Ok(Groups(start, size))
  }

  /** Group i holds the subsequences of length i + 1 of the range. */
  function Groups(start: int, size: nat): (g: seq<seq<seq<int>>>)
    ensures |g| == size
  {
    seq(size, i requires 0 <= i < size => Permutations(Range(start, size), i + 1))
  }

  lemma GroupsBySize(start: int, size: nat)
    ensures forall i :: 0 <= i < size ==> |Groups(start, size)[i]| == Binomial(size, i + 1)
    ensures forall i, s :: 0 <= i < size ==>
      (s in Groups(start, size)[i] <==> |s| == i + 1 && IsSubsequence(s, Range(start, size)))
  {
    var g := Groups(start, size);
    forall i | 0 <= i < size
      ensures |g[i]| == Binomial(size, i + 1)
      ensures forall s :: s in g[i] <==> |s| == i + 1 && IsSubsequence(s, Range(start, size))
    {
      SizeGroup(Range(start, size), i + 1);
    }
  }

  /** Within each group the subsequences come in increasing lexicographic
      order. */
  lemma GroupsAscending(start: int, size: nat)
    ensures forall i, t :: 0 <= i < size && 0 <= t < |Groups(start, size)[i]| - 1 ==>
      LexBefore((x: int) => x, Groups(start, size)[i][t], Groups(start, size)[i][t + 1])
  {
    forall i | 0 <= i < size
      ensures forall t :: 0 <= t < |Groups(start, size)[i]| - 1 ==>
        LexBefore((x: int) => x, Groups(start, size)[i][t], Groups(start, size)[i][t + 1])
    {
      PermutationsAscending((x: int) => x, Range(start, size), i + 1);
    }
  }
}
