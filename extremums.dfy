/** Greatest, least, upper- and lower-bound elements of a relation. */
module Extremums {
  import opened Errors
  import opened Matrices
  import opened ArgumentsCheck

  datatype Extremum = Maximum | Minimum | Majorant | Minorant

  /** The cell the rule for `kind` inspects when it compares i with j,
      already negated where the rule wants it false: a maximum relates to
      everything, a minimum is related from everything, a majorant is
      related from nothing and a minorant relates to nothing. */
  predicate Passes(kind: Extremum, c: Relation, i: nat, j: nat)
    requires i < |c| && j < |c|
  {
    match kind
    case Maximum => c[i][j]
    case Minimum => c[j][i]
    case Majorant => !c[j][i]
    case Minorant => !c[i][j]
  }

  predicate Qualifies(kind: Extremum, c: Relation, i: nat)
    requires i < |c|
  {
    forall j :: 0 <= j < |c| ==> Passes(kind, c, i, j)
  }

  /** The qualifying elements below `bound`, in ascending order. */
  function Select(kind: Extremum, c: Relation, bound: nat): (e: seq<nat>)
    requires bound <= |c|
    ensures forall k :: 0 <= k < |e| ==> e[k] < bound && Qualifies(kind, c, e[k])
    ensures forall i :: 0 <= i < bound && Qualifies(kind, c, i) ==> i in e
    ensures forall k, l :: 0 <= k < l < |e| ==> e[k] < e[l]
  {
    if bound == 0 then []
    else Select(kind, c, bound - 1) + (if Qualifies(kind, c, bound - 1) then [bound - 1] else [])
  }

  /** One more candidate: Select grows by i exactly when i qualifies. */
  lemma SelectStep(kind: Extremum, c: Relation, i: nat)
    requires i < |c|
    ensures Select(kind, c, i + 1) == Select(kind, c, i) + (if Qualifies(kind, c, i) then [i] else [])
  {
  }

  /** All qualifying elements: strictly ascending, hence without
      duplicates, within [0, n), and exactly the qualifying ones. */
  function ExtremumsOf(kind: Extremum, c: Relation): (e: seq<nat>)
  {
    Select(kind, c, |c|)
  }

  /** The inner loop shared by the four enumerations: it scans j upwards
      and stops at the first cell that breaks the rule for `kind`. */
  method RuleHolds(kind: Extremum, m: array2<bool>, i: nat) returns (rulePassing: bool)
    requires m.Length0 == m.Length1 && i < m.Length0
    ensures rulePassing == Qualifies(kind, Cells(m), i)
  {
    ghost var c := Cells(m);
    var length := m.Length0;
    var j := 0;
    while j < length
      invariant 0 <= j <= length
      invariant forall y :: 0 <= y < j ==> Passes(kind, c, i, y)
    {
      var passes := match kind
        case Maximum => m[i, j]
        case Minimum => m[j, i]
        case Majorant => !m[j, i]
        case Minorant => !m[i, j];
      if passes { j := j + 1; continue; }
      assert !Passes(kind, c, i, j);
      return false;
    }
    return true;
  }

  /** The outer loop shared by the four enumerations: every i whose rule
      holds is yielded, in ascending order. */
  method Enumerate(kind: Extremum, m: array2<bool>) returns (found: seq<nat>)
    requires m.Length0 == m.Length1
    ensures found == ExtremumsOf(kind, Cells(m))
  {
    ghost var c := Cells(m);
    var length := m.Length0;
    found := [];
    for i := 0 to length
      invariant found == Select(kind, c, i)
    {
      var rulePassing := RuleHolds(kind, m, i);
      SelectStep(kind, c, i);
      if rulePassing { found := found + [i]; }
    }
  }

  method GetMaximums(m: array2?<bool>) returns (r: Result<seq<nat>>)
    ensures ThrowIfNull_NotQuad(m).Fail? ==> r == Throws(ThrowIfNull_NotQuad(m).error)
    ensures ThrowIfNull_NotQuad(m).Pass? ==> r == Ok(ExtremumsOf(Maximum, Cells(m)))
  {
    var guard := ThrowIfNull_NotQuad(m);
    if guard.Fail? { return Throws(guard.error); }
    var found := Enumerate(Maximum, m);
    return Ok(found);
  }

  method GetMinimums(m: array2?<bool>) returns (r: Result<seq<nat>>)
    ensures ThrowIfNull_NotQuad(m).Fail? ==> r == Throws(ThrowIfNull_NotQuad(m).error)
    ensures ThrowIfNull_NotQuad(m).Pass? ==> r == Ok(ExtremumsOf(Minimum, Cells(m)))
  {
    var guard := ThrowIfNull_NotQuad(m);
    if guard.Fail? { return Throws(guard.error); }
    var found := Enumerate(Minimum, m);
    return Ok(found);
  }

  method GetMajorants(m: array2?<bool>) returns (r: Result<seq<nat>>)
    ensures ThrowIfNull_NotQuad(m).Fail? ==> r == Throws(ThrowIfNull_NotQuad(m).error)
    ensures ThrowIfNull_NotQuad(m).Pass? ==> r == Ok(ExtremumsOf(Majorant, Cells(m)))
  {
    var guard := ThrowIfNull_NotQuad(m);
    if guard.Fail? { return Throws(guard.error); }
    var found := Enumerate(Majorant, m);
    return Ok(found);
  }

  method GetMinorants(m: array2?<bool>) returns (r: Result<seq<nat>>)
    ensures ThrowIfNull_NotQuad(m).Fail? ==> r == Throws(ThrowIfNull_NotQuad(m).error)
    ensures ThrowIfNull_NotQuad(m).Pass? ==> r == Ok(ExtremumsOf(Minorant, Cells(m)))
  {
    var guard := ThrowIfNull_NotQuad(m);
    if guard.Fail? { return Throws(guard.error); }
    var found := Enumerate(Minorant, m);
    return Ok(found);
  }

  /** Has* asks whether the enumeration yields anything: it holds iff some
      element qualifies. */
  method HasExtremum(kind: Extremum, m: array2?<bool>) returns (r: Result<bool>)
    ensures ThrowIfNull_NotQuad(m).Fail? ==> r == Throws(ThrowIfNull_NotQuad(m).error)
    ensures ThrowIfNull_NotQuad(m).Pass? ==>
      r == Ok(exists i :: 0 <= i < m.Length0 && Qualifies(kind, Cells(m), i))
  {
    var found: Result<seq<nat>>;
    match kind {
      case Maximum => found := GetMaximums(m);
      case Minimum => found := GetMinimums(m);
      case Majorant => found := GetMajorants(m);
      case Minorant => found := GetMinorants(m);
    }
    if found.Throws? { return Throws(found.error); }
    ghost var c := Cells(m);
    if |found.value| > 0 {
      assert Qualifies(kind, c, found.value[0]);
    }
    return Ok(|found.value| > 0);
  }

  /** No element is both a maximum and a minorant (it would have to be
      related to itself and not), nor both a minimum and a majorant. */
  lemma MaximumIsNotMinorant(c: Relation, i: nat)
    requires i < |c|
    ensures Qualifies(Maximum, c, i) ==> !Qualifies(Minorant, c, i)
    ensures Qualifies(Minimum, c, i) ==> !Qualifies(Majorant, c, i)
  {
    if Qualifies(Maximum, c, i) {
      assert Passes(Maximum, c, i, i) && !Passes(Minorant, c, i, i);
    }
    if Qualifies(Minimum, c, i) {
      assert Passes(Minimum, c, i, i) && !Passes(Majorant, c, i, i);
    }
  }
}
