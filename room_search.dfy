/** Flood fill over a grid that groups the cells holding a room id into
    lists of neighbouring cells. */
module RoomSearch {
  import opened MatrixExtensions

  type Cell = (int, int)

  datatype Option<T> = None | Some(value: T)

  // ---------------------------------------------------------------------
  // Neighbourhood test
  // ---------------------------------------------------------------------

  /** The neighbourhood test as written: each coordinate may move by one,
      except that the x and y moves may not both be +1 or both be -1. */
  predicate IsNeighbourStrictCross(e1: Cell, e2: Cell)
  {
    ((e1.0 + 1 == e2.0 && e1.1 + 1 != e2.1) ||
     (e1.0 - 1 == e2.0 && e1.1 - 1 != e2.1) ||
     e1.0 == e2.0) &&
    ((e1.1 + 1 == e2.1 && e1.0 + 1 != e2.0) ||
     (e1.1 - 1 == e2.1 && e1.0 - 1 != e2.0) ||
     e1.1 == e2.1)
  }

  /** Exactly which offsets the test accepts: the cell itself, its four
      orthogonal neighbours, and the two anti-diagonal ones. */
  lemma NeighbourStrictCrossAccepts(e1: Cell, e2: Cell)
    ensures IsNeighbourStrictCross(e1, e2) <==>
      var dx, dy := e2.0 - e1.0, e2.1 - e1.1;
      (dx, dy) in {(0, 0), (1, 0), (-1, 0), (0, 1), (0, -1), (1, -1), (-1, 1)}
  {
  }

  /** The test is symmetric. */
  lemma NeighbourStrictCrossSymmetric(e1: Cell, e2: Cell)
    ensures IsNeighbourStrictCross(e1, e2) == IsNeighbourStrictCross(e2, e1)
  {
  }

  /** The cell (x + 1, y - 1) passes the test although it is diagonal. */
  lemma StrictCrossAcceptsDiagonal()
    ensures IsNeighbourStrictCross((0, 0), (1, -1))
    ensures IsNeighbourStrictCross((0, 0), (-1, 1))
    ensures !IsNeighbourStrictCross((0, 0), (1, 1))
  {
  }

  /** The cross neighbourhood the comments describe: the cell itself or one
      step along exactly one axis. */
  predicate IsCrossNeighbour(e1: Cell, e2: Cell)
  {
    (e1.0 == e2.0 && (e1.1 - e2.1 == 1 || e2.1 - e1.1 == 1 || e1.1 == e2.1)) ||
    (e1.1 == e2.1 && (e1.0 - e2.0 == 1 || e2.0 - e1.0 == 1))
  }

  function Abs(v: int): nat { if v < 0 then -v else v }

  /** The corrected test accepts exactly the cells at Manhattan distance at
      most one, so no diagonal. */
  lemma CrossNeighbourIsManhattanOne(e1: Cell, e2: Cell)
    ensures IsCrossNeighbour(e1, e2) <==> Abs(e2.0 - e1.0) + Abs(e2.1 - e1.1) <= 1
    ensures IsCrossNeighbour(e1, e2) == IsCrossNeighbour(e2, e1)
  {
  }

  // ---------------------------------------------------------------------
  // Flood fill
  // ---------------------------------------------------------------------

  /** Some cell of the list passes the neighbourhood test against `edge`. */
  predicate Adjacent(list: seq<Cell>, edge: Cell)
  {
    exists v :: v in list && IsNeighbourStrictCross(v, edge)
  }

  /** The first listed room holding a cell that passes the neighbourhood
      test against `edge`: the list `FirstOrDefault` finds. */
  function FirstAdjacentRoom(rooms: seq<nat>, store: seq<seq<Cell>>, edge: Cell): (r: Option<nat>)
    requires forall k :: 0 <= k < |rooms| ==> rooms[k] < |store|
    ensures r.Some? ==> exists k :: (0 <= k < |rooms| && rooms[k] == r.value &&
      Adjacent(store[rooms[k]], edge) &&
      forall k' :: 0 <= k' < k ==> !Adjacent(store[rooms[k']], edge))
    ensures r.None? <==> forall k :: 0 <= k < |rooms| ==> !Adjacent(store[rooms[k]], edge)
  {
    if |rooms| == 0 then None
    else if Adjacent(store[rooms[0]], edge) then Some(rooms[0])
    else
      var r := FirstAdjacentRoom(rooms[1..], store, edge);
      assert forall k :: 0 < k < |rooms| ==> rooms[k] == rooms[1..][k - 1];
      r
  }

  /** The list a visited room cell goes into: the first listed room with an
      accepted neighbour, or else the current list. */
  function Target(rooms: seq<nat>, store: seq<seq<Cell>>, edge: Cell, current: nat): (t: nat)
    requires forall k :: 0 <= k < |rooms| ==> rooms[k] < |store|
    ensures t == current || t in rooms
  {
    match FirstAdjacentRoom(rooms, store, edge)
    case Some(l) => l
    case None => current
  }

  /** Because the test accepts the anti-diagonal, a room cell at (0, 1) joins
      the listed room holding (1, 0) instead of the current list. */
  lemma DiagonalCellJoinsRoom()
    ensures Target([0], [[(1, 0)], []], (0, 1), 1) == 0
  {
    assert IsNeighbourStrictCross((1, 0), (0, 1));
    assert (1, 0) in [[(1, 0)], []][0];
  }

  /** All in-bounds orthogonal neighbours of a true cell are true. */
  predicate NeighboursSet(g: Grid<bool>, rows: nat, cols: nat, i: int, j: int)
    requires IsRect(g, rows, cols) && 0 <= i < rows && 0 <= j < cols
  {
    (i > 0 ==> g[i - 1][j]) && (i + 1 < rows ==> g[i + 1][j]) &&
    (j > 0 ==> g[i][j - 1]) && (j + 1 < cols ==> g[i][j + 1])
  }

  /** A grid in which (0, 0) is set and every set cell's neighbours are set
      is set everywhere. */
  lemma {:induction false} ClosedFromOriginCoversAll(g: Grid<bool>, rows: nat, cols: nat, i: nat, j: nat)
    requires IsRect(g, rows, cols) && rows > 0 && cols > 0 && g[0][0]
    requires forall x, y :: 0 <= x < rows && 0 <= y < cols && g[x][y] ==> NeighboursSet(g, rows, cols, x, y)
    requires i < rows && j < cols
    ensures g[i][j]
    decreases i + j
  {
    if i > 0 {
      ClosedFromOriginCoversAll(g, rows, cols, i - 1, j);
      assert NeighboursSet(g, rows, cols, i - 1, j);
    } else if j > 0 {
      ClosedFromOriginCoversAll(g, rows, cols, i, j - 1);
      assert NeighboursSet(g, rows, cols, i, j - 1);
    }
  }

  /** Every cell set in g0 is set in g1. */
  predicate Grows(g0: Grid<bool>, g1: Grid<bool>, rows: nat, cols: nat)
    requires IsRect(g0, rows, cols) && IsRect(g1, rows, cols)
  {
    forall i, j :: 0 <= i < rows && 0 <= j < cols && g0[i][j] ==> g1[i][j]
  }

  /** Every cell set in g1 but not in g0 has all its neighbours set in g1. */
  predicate ClosedNew(g0: Grid<bool>, g1: Grid<bool>, rows: nat, cols: nat)
    requires IsRect(g0, rows, cols) && IsRect(g1, rows, cols)
  {
    forall i, j :: 0 <= i < rows && 0 <= j < cols && g1[i][j] && !g0[i][j] ==> NeighboursSet(g1, rows, cols, i, j)
  }

  /** The cells not yet set. */
  function Unset(g: Grid<bool>, rows: nat, cols: nat): set<Cell>
    requires IsRect(g, rows, cols)
  {
    set i, j | 0 <= i < rows && 0 <= j < cols && !g[i][j] :: (i, j)
  }

  lemma GrowsShrinksUnset(g0: Grid<bool>, g1: Grid<bool>, rows: nat, cols: nat)
    requires IsRect(g0, rows, cols) && IsRect(g1, rows, cols) && Grows(g0, g1, rows, cols)
    ensures Unset(g1, rows, cols) <= Unset(g0, rows, cols)
  {
  }

  /** Growth and closure of new cells compose. */
  lemma {:induction false} ChainClosed(g0: Grid<bool>, g1: Grid<bool>, g2: Grid<bool>, rows: nat, cols: nat)
    requires IsRect(g0, rows, cols) && IsRect(g1, rows, cols) && IsRect(g2, rows, cols)
    requires Grows(g0, g1, rows, cols) && Grows(g1, g2, rows, cols)
    requires ClosedNew(g0, g1, rows, cols) && ClosedNew(g1, g2, rows, cols)
    ensures Grows(g0, g2, rows, cols) && ClosedNew(g0, g2, rows, cols)
  {
    forall i, j | 0 <= i < rows && 0 <= j < cols && g2[i][j] && !g0[i][j]
      ensures NeighboursSet(g2, rows, cols, i, j)
    {
      if g1[i][j] {
        assert NeighboursSet(g1, rows, cols, i, j);
      }
    }
  }

  /** A step that sets only (x, y), followed by a closed growth that sets
      all of (x, y)'s neighbours, is a closed growth. */
  lemma {:induction false} SpreadClosed(g0: Grid<bool>, g1: Grid<bool>, g2: Grid<bool>, rows: nat, cols: nat, x: int, y: int)
    requires IsRect(g0, rows, cols) && IsRect(g1, rows, cols) && IsRect(g2, rows, cols)
    requires 0 <= x < rows && 0 <= y < cols
    requires Grows(g0, g1, rows, cols) && Grows(g1, g2, rows, cols) && ClosedNew(g1, g2, rows, cols)
    requires forall i, j :: 0 <= i < rows && 0 <= j < cols && g1[i][j] && !g0[i][j] ==> i == x && j == y
    requires NeighboursSet(g2, rows, cols, x, y)
    ensures Grows(g0, g2, rows, cols) && ClosedNew(g0, g2, rows, cols)
  {
  }

  /** Every room reference names a list. */
  predicate References(rooms: seq<nat>, store: seq<seq<Cell>>)
  {
    forall k :: 0 <= k < |rooms| ==> rooms[k] < |store|
  }

  /** No cell is stored twice, in one list or in two. */
  predicate Distinct(store: seq<seq<Cell>>)
  {
    forall l, p, m, q ::
      (0 <= l < |store| && 0 <= p < |store[l]| && 0 <= m < |store| && 0 <= q < |store[m]| &&
       store[l][p] == store[m][q]) ==> l == m && p == q
  }

  /** Each room reference resolved to the list it names. */
  function Resolve(rooms: seq<nat>, store: seq<seq<Cell>>): (r: seq<seq<Cell>>)
    requires References(rooms, store)
    ensures |r| == |rooms| && forall k :: 0 <= k < |rooms| ==> r[k] == store[rooms[k]]
  {
    seq(|rooms|, k requires 0 <= k < |rooms| => store[rooms[k]])
  }

  /** A cell held by two lists of a repeat-free store is held by one list. */
  lemma SharedCellSameList(store: seq<seq<Cell>>, l: nat, m: nat, e: Cell)
    requires Distinct(store) && l < |store| && m < |store| && e in store[l] && e in store[m]
    ensures l == m
  {
    var p :| 0 <= p < |store[l]| && store[l][p] == e;
    var q :| 0 <= q < |store[m]| && store[m][q] == e;
  }

  /** Two resolved rooms that share a cell are the same list. */
  lemma ResolvedRoomsDisjoint(rooms: seq<nat>, store: seq<seq<Cell>>)
    requires References(rooms, store) && Distinct(store)
    ensures forall r1, r2, e :: r1 in Resolve(rooms, store) && r2 in Resolve(rooms, store) && e in r1 && e in r2 ==> r1 == r2
  {
    var rs := Resolve(rooms, store);
    forall r1, r2, e | r1 in rs && r2 in rs && e in r1 && e in r2 ensures r1 == r2 {
      var k1 :| 0 <= k1 < |rs| && rs[k1] == r1;
      var k2 :| 0 <= k2 < |rs| && rs[k2] == r2;
      SharedCellSameList(store, rooms[k1], rooms[k2], e);
    }
  }

  /** Appending a cell no list holds keeps the store free of repeats. */
  lemma AppendFreshKeepsDistinct(store: seq<seq<Cell>>, t: nat, e: Cell)
    requires Distinct(store) && t < |store|
    requires forall l :: 0 <= l < |store| ==> e !in store[l]
    ensures Distinct(store[t := store[t] + [e]])
  {
    var s' := store[t := store[t] + [e]];
    forall l, p, m, q | 0 <= l < |s'| && 0 <= p < |s'[l]| && 0 <= m < |s'| && 0 <= q < |s'[m]| && s'[l][p] == s'[m][q]
      ensures l == m && p == q
    {
      if l == t && p == |store[t]| {
      } else if m == t && q == |store[t]| {
      } else {
        assert s'[l][p] == store[l][p] && s'[m][q] == store[m][q];
      }
    }
  }

  /** When lists only grow and the rooms collection only grows, whatever a
      listed room held it still holds. */
  lemma GrowthKeepsMembers(store0: seq<seq<Cell>>, store: seq<seq<Cell>>, rooms0: seq<nat>, rooms: seq<nat>)
    requires References(rooms0, store0)
    requires |store0| <= |store| && rooms0 <= rooms
    requires forall l :: 0 <= l < |store0| ==> store0[l] <= store[l]
    ensures References(rooms0, store)
    ensures forall k, e :: 0 <= k < |rooms0| && e in store0[rooms0[k]] ==> e in store[rooms[k]]
  {
    forall k, e | 0 <= k < |rooms0| && e in store0[rooms0[k]] ensures e in store[rooms[k]] {
      var l := rooms0[k];
      assert rooms[k] == l;
      var p :| 0 <= p < |store0[l]| && store0[l][p] == e;
      assert store[l][p] == e;
    }
  }

  /** Every list of store0 is still there, possibly longer: stated list by
      list from the last, so that it unfolds only on demand. */
  predicate Extends(store0: seq<seq<Cell>>, store: seq<seq<Cell>>)
    decreases |store0|
  {
    |store0| <= |store| &&
    (|store0| == 0 ||
     (Extends(store0[..|store0| - 1], store[..|store0| - 1]) && store0[|store0| - 1] <= store[|store0| - 1]))
  }

  /** Extends says that every list of store0 is a prefix of the list at the
      same place in store. */
  lemma {:induction false} ExtendsMeans(store0: seq<seq<Cell>>, store: seq<seq<Cell>>)
    ensures Extends(store0, store) <==>
      |store0| <= |store| && forall l :: 0 <= l < |store0| ==> store0[l] <= store[l]
    decreases |store0|
  {
    if |store0| > 0 && |store0| <= |store| {
      var n := |store0| - 1;
      ExtendsMeans(store0[..n], store[..n]);
    }
  }

  lemma ExtendsTransitive(s0: seq<seq<Cell>>, s1: seq<seq<Cell>>, s2: seq<seq<Cell>>)
    requires Extends(s0, s1) && Extends(s1, s2)
    ensures Extends(s0, s2)
  {
    ExtendsMeans(s0, s1);
    ExtendsMeans(s1, s2);
    ExtendsMeans(s0, s2);
    forall l | 0 <= l < |s0| ensures s0[l] <= s2[l] {
      assert s0[l] <= s1[l] && s1[l] <= s2[l];
      assert s2[l][..|s0[l]|] == s1[l][..|s0[l]|];
    }
  }

  /** Adding a cell to one list, or a fresh list at the end, extends the store. */
  lemma ExtendsByFiling(store0: seq<seq<Cell>>, t: nat, e: Cell)
    ensures t < |store0| ==> Extends(store0, store0[t := store0[t] + [e]])
    ensures Extends(store0, store0 + [[]])
  {
    if t < |store0| {
      ExtendsMeans(store0, store0[t := store0[t] + [e]]);
    }
    ExtendsMeans(store0, store0 + [[]]);
  }

  /** rooms0 is an initial part of rooms: stated by dropping the last entry,
      so that it unfolds only on demand. */
  predicate Listed(rooms0: seq<nat>, rooms: seq<nat>)
    decreases |rooms|
  {
    rooms0 == rooms || (|rooms| > 0 && Listed(rooms0, rooms[..|rooms| - 1]))
  }

  /** Listed is the prefix order. */
  lemma {:induction false} ListedMeans(rooms0: seq<nat>, rooms: seq<nat>)
    ensures Listed(rooms0, rooms) <==> rooms0 <= rooms
    decreases |rooms|
  {
    if rooms0 != rooms && |rooms| > 0 {
      var init := rooms[..|rooms| - 1];
      ListedMeans(rooms0, init);
      if rooms0 <= rooms {
        assert rooms0 <= init;
      }
    }
  }

  lemma ListedTransitive(r0: seq<nat>, r1: seq<nat>, r2: seq<nat>)
    requires Listed(r0, r1) && Listed(r1, r2)
    ensures Listed(r0, r2)
  {
    ListedMeans(r0, r1);
    ListedMeans(r1, r2);
    ListedMeans(r0, r2);
  }

  /** The state shared by the recursion: the grid, the visited flags, every
      list created so far (`store`, by identity) and the rooms collection,
      which holds references into `store`. */
  class RoomSearcher {
    const grid: array2<int>
    const roomId: int
    const visited: array2<bool>
    var store: seq<seq<Cell>>
    var rooms: seq<nat>

    predicate InBounds(i: int, j: int)
    {
      0 <= i < grid.Length0 && 0 <= j < grid.Length1
    }

    ghost predicate Valid()
      reads this, visited, grid
    {
      visited.Length0 == grid.Length0 && visited.Length1 == grid.Length1 &&
      References(rooms, store) && Distinct(store) && Sound() && Covered()
    }

    /** Only visited cells holding the room id are stored. */
    ghost predicate Sound()
      requires visited.Length0 == grid.Length0 && visited.Length1 == grid.Length1
      reads this, visited, grid
    {
      forall l, e :: 0 <= l < |store| && e in store[l] ==>
        InBounds(e.0, e.1) && visited[e.0, e.1] && grid[e.0, e.1] == roomId
    }

    /** Every visited cell holding the room id is in a listed room. */
    ghost predicate Covered()
      requires visited.Length0 == grid.Length0 && visited.Length1 == grid.Length1
      requires References(rooms, store)
      reads this, visited, grid
    {
      forall i, j :: InBounds(i, j) && visited[i, j] && grid[i, j] == roomId ==>
        exists k :: 0 <= k < |rooms| && (i, j) in store[rooms[k]]
    }

    /** The visited flags as a value. */
    ghost function Flags(): (g: Grid<bool>)
      reads visited
      ensures IsRect(g, visited.Length0, visited.Length1)
    {
      GridOf(visited)
    }

    /** The rooms collection, each reference resolved to its list. */
    function Rooms(): (r: seq<seq<Cell>>)
      requires References(rooms, store)
      reads this
      ensures r == Resolve(rooms, store)
    {
      Resolve(rooms, store)
    }

    /** After a full fill the rooms hold exactly the cells carrying the room
        id. */
    lemma RoomsHoldRoomCells()
      requires Valid() && forall i, j :: InBounds(i, j) ==> visited[i, j]
      ensures forall r, e :: r in Rooms() && e in r ==>
        InBounds(e.0, e.1) && grid[e.0, e.1] == roomId
      ensures forall i, j :: InBounds(i, j) && grid[i, j] == roomId ==>
        exists r :: r in Rooms() && (i, j) in r
    {
      var rs := Rooms();
      forall i, j | InBounds(i, j) && grid[i, j] == roomId ensures exists r :: r in rs && (i, j) in r {
        var k :| 0 <= k < |rooms| && (i, j) in store[rooms[k]];
        assert rs[k] == store[rooms[k]];
      }
    }

    constructor (grid: array2<int>, roomId: int)
      ensures this.grid == grid && this.roomId == roomId
      ensures fresh(visited) && visited.Length0 == grid.Length0 && visited.Length1 == grid.Length1
      ensures store == [] && rooms == []
      ensures forall i, j :: 0 <= i < grid.Length0 && 0 <= j < grid.Length1 ==> !visited[i, j]
      ensures Valid()
    {
      this.grid := grid;
      this.roomId := roomId;
      visited := new bool[grid.Length0, grid.Length1]((i, j) => false);
      store := [];
      rooms := [];
    }

    /** Every visited cell holding the room id, except (x, y), is in a
        listed room. */
    ghost predicate CoveredExcept(x: int, y: int)
      requires visited.Length0 == grid.Length0 && visited.Length1 == grid.Length1
      requires References(rooms, store)
      reads this, visited, grid
    {
      forall i, j :: InBounds(i, j) && visited[i, j] && grid[i, j] == roomId && (i, j) != (x, y) ==>
        exists k :: 0 <= k < |rooms| && (i, j) in store[rooms[k]]
    }

    /** Marks an unvisited cell, then files it. */
    method Visit(x: int, y: int, current: nat) returns (next: nat)
      requires Valid() && current < |store| && InBounds(x, y) && !visited[x, y]
      modifies this, visited
      ensures Valid() && next < |store| && |store| >= old(|store|)
      ensures visited[x, y]
      ensures forall i, j :: InBounds(i, j) && (i, j) != (x, y) ==> visited[i, j] == old(visited[i, j])
      ensures Grows(old(Flags()), Flags(), visited.Length0, visited.Length1)
      ensures forall i, j :: InBounds(i, j) && Flags()[i][j] && !old(Flags())[i][j] ==> i == x && j == y
      ensures Unset(Flags(), visited.Length0, visited.Length1) < Unset(old(Flags()), visited.Length0, visited.Length1)
      ensures grid[x, y] == roomId ==> (next == current &&
        var t := Target(old(rooms), old(store), (x, y), current);
        store == old(store)[t := old(store)[t] + [(x, y)]])
      ensures grid[x, y] != roomId ==> next == |old(store)| && store == old(store) + [[]]
      ensures rooms == old(rooms) + (if |store[next]| > 0 then [next] else [])
      ensures Extends(old(store), store)
    {
      ghost var g0 := Flags();
      visited[x, y] := true;
      ghost var g1 := Flags();
      GrowsShrinksUnset(g0, g1, visited.Length0, visited.Length1);
      assert (x, y) in Unset(g0, visited.Length0, visited.Length1);
      next := File(x, y, current);
    }

    /** Files a freshly marked cell: a room cell goes into the first listed
        room holding an accepted neighbour, or else into the current list;
        another cell starts a fresh empty list. The list the recursion
        continues with is listed again whenever it is non-empty. */
    method File(x: int, y: int, current: nat) returns (next: nat)
      requires visited.Length0 == grid.Length0 && visited.Length1 == grid.Length1
      requires References(rooms, store) && Distinct(store) && Sound() && CoveredExcept(x, y)
      requires current < |store| && InBounds(x, y) && visited[x, y]
      requires forall l :: 0 <= l < |store| ==> (x, y) !in store[l]
      modifies this
      ensures Valid() && next < |store| && |store| >= old(|store|)
      ensures grid[x, y] == roomId ==> (next == current &&
        var t := Target(old(rooms), old(store), (x, y), current);
        store == old(store)[t := old(store)[t] + [(x, y)]])
      ensures grid[x, y] != roomId ==> next == |old(store)| && store == old(store) + [[]]
      ensures rooms == old(rooms) + (if |store[next]| > 0 then [next] else [])
      ensures Extends(old(store), store)
    {
      var isRoom := grid[x, y] == roomId;
      var room := current;
      if !isRoom {
        room := StartList(x, y);
        assert Covered();
      }
      if isRoom {
        PlaceRoomCell(x, y, current);
      }
      if |store[room]| > 0 {
        ListRoom(room, x, y);
      }
      next := room;
      ExtendsByFiling(old(store), if isRoom then Target(old(rooms), old(store), (x, y), current) else 0, (x, y));
    }

    /** A room cell goes into the first listed room holding an accepted
        neighbour, or else into the current list. */
    method PlaceRoomCell(x: int, y: int, current: nat)
      requires visited.Length0 == grid.Length0 && visited.Length1 == grid.Length1
      requires References(rooms, store) && Distinct(store) && Sound() && CoveredExcept(x, y)
      requires current < |store| && InBounds(x, y) && visited[x, y] && grid[x, y] == roomId
      requires forall l :: 0 <= l < |store| ==> (x, y) !in store[l]
      modifies this
      ensures References(rooms, store) && Distinct(store) && Sound() && CoveredExcept(x, y)
      ensures var t := Target(old(rooms), old(store), (x, y), current);
        store == old(store)[t := old(store)[t] + [(x, y)]] && rooms == old(rooms)
      ensures Covered() || (x, y) in store[current]
    {
      var exist := FirstAdjacentRoom(rooms, store, (x, y));
      if exist.Some? {
        var k :| 0 <= k < |rooms| && rooms[k] == exist.value;
        Append(exist.value, x, y);
        CoverLast(x, y, k);
      } else {
        Append(current, x, y);
      }
    }

    /** Once (x, y) is in a listed room, every visited room cell is. */
    lemma CoverLast(x: int, y: int, k: nat)
      requires visited.Length0 == grid.Length0 && visited.Length1 == grid.Length1
      requires References(rooms, store) && CoveredExcept(x, y)
      requires k < |rooms| && (x, y) in store[rooms[k]]
      ensures Covered()
    {
    }

    /** A new empty list. */
    method StartList(x: int, y: int) returns (l: nat)
      requires visited.Length0 == grid.Length0 && visited.Length1 == grid.Length1
      requires References(rooms, store) && Distinct(store) && Sound() && CoveredExcept(x, y)
      modifies this
      ensures store == old(store) + [[]] && rooms == old(rooms) && l == |store| - 1
      ensures References(rooms, store) && Distinct(store) && Sound() && CoveredExcept(x, y)
    {
      GrowthKeepsMembers(store, store + [[]], rooms, rooms);
      store := store + [[]];
      l := |store| - 1;
    }

    /** Appends the visited room cell (x, y), held by no list yet, to list t. */
    method Append(t: nat, x: int, y: int)
      requires visited.Length0 == grid.Length0 && visited.Length1 == grid.Length1
      requires References(rooms, store) && Distinct(store) && Sound() && CoveredExcept(x, y)
      requires t < |store| && InBounds(x, y) && visited[x, y] && grid[x, y] == roomId
      requires forall l :: 0 <= l < |store| ==> (x, y) !in store[l]
      modifies this
      ensures store == old(store)[t := old(store)[t] + [(x, y)]] && rooms == old(rooms)
      ensures |store| == old(|store|) && (x, y) in store[t]
      ensures References(rooms, store) && Distinct(store) && Sound() && CoveredExcept(x, y)
    {
      var s := store[t := store[t] + [(x, y)]];
      AppendFreshKeepsDistinct(store, t, (x, y));
      GrowthKeepsMembers(store, s, rooms, rooms);
      assert forall l, e :: 0 <= l < |s| && e in s[l] ==> e in store[l] || e == (x, y);
      store := s;
    }

    /** Adds list r to the rooms collection. */
    method ListRoom(r: nat, x: int, y: int)
      requires visited.Length0 == grid.Length0 && visited.Length1 == grid.Length1
      requires References(rooms, store) && r < |store| && CoveredExcept(x, y)
      modifies this
      ensures rooms == old(rooms) + [r] && store == old(store)
      ensures References(rooms, store) && CoveredExcept(x, y)
      ensures old(Covered()) || (x, y) in store[r] ==> Covered()
    {
      rooms := rooms + [r];
      forall i, j | InBounds(i, j) && visited[i, j] && grid[i, j] == roomId && (i, j) != (x, y)
        ensures exists k :: 0 <= k < |rooms| && (i, j) in store[rooms[k]]
      {
        var k :| 0 <= k < |old(rooms)| && (i, j) in store[old(rooms)[k]];
        assert rooms[k] == old(rooms)[k];
      }
      if (x, y) in store[r] {
        assert rooms[|rooms| - 1] == r;
      }
      if old(Covered()) && InBounds(x, y) && visited[x, y] && grid[x, y] == roomId {
        var k :| 0 <= k < |old(rooms)| && (x, y) in store[old(rooms)[k]];
        assert rooms[k] == old(rooms)[k];
      }
    }

    /** The recursion: returns on cells out of bounds or already visited,
        otherwise visits the cell and spreads from it with the list the
        visit chose. */
    method RoomCore(x: int, y: int, current: nat)
      requires Valid() && current < |store|
      modifies this, visited
      ensures Valid() && Extends(old(store), store) && Listed(old(rooms), rooms)
      ensures Grows(old(Flags()), Flags(), visited.Length0, visited.Length1)
      ensures ClosedNew(old(Flags()), Flags(), visited.Length0, visited.Length1)
      ensures InBounds(x, y) ==> visited[x, y]
      decreases Unset(Flags(), visited.Length0, visited.Length1), 0
    {
      if x < 0 || x >= grid.Length0 || y < 0 || y >= grid.Length1 || visited[x, y] {
        ExtendsMeans(store, store);
        ListedMeans(rooms, rooms);
        return;
      }
      ghost var g0 := Flags();
      ghost var s0, r0 := store, rooms;
      var room := Visit(x, y, current);
      ghost var g1 := Flags();
      ghost var s1, r1 := store, rooms;
      ListedMeans(r0, r1);
      Spread(x, y, room);
      ExtendsTransitive(s0, s1, store);
      ListedTransitive(r0, r1, rooms);
      SpreadClosed(g0, g1, Flags(), visited.Length0, visited.Length1, x, y);
    }

    /** Continues from a visited cell up, left, right and down, each with
        the same list; afterwards all four neighbours are visited. */
    method Spread(x: int, y: int, room: nat)
      requires Valid() && room < |store| && InBounds(x, y)
      modifies this, visited
      ensures Valid() && Extends(old(store), store) && Listed(old(rooms), rooms)
      ensures Grows(old(Flags()), Flags(), visited.Length0, visited.Length1)
      ensures ClosedNew(old(Flags()), Flags(), visited.Length0, visited.Length1)
      ensures NeighboursSet(Flags(), visited.Length0, visited.Length1, x, y)
      decreases Unset(Flags(), visited.Length0, visited.Length1), 1
    {
      var rows, cols := visited.Length0, visited.Length1;
      ghost var g1 := Flags();
      ghost var s1, r1 := store, rooms;
      RoomCore(x, y - 1, room);
      ghost var g2 := Flags();
      ghost var s2, r2 := store, rooms;
      GrowsShrinksUnset(g1, g2, rows, cols);
      RoomCore(x - 1, y, room);
      ghost var g3 := Flags();
      ghost var s3, r3 := store, rooms;
      ChainClosed(g1, g2, g3, rows, cols);
      GrowsShrinksUnset(g1, g3, rows, cols);
      ExtendsTransitive(s1, s2, s3);
      ListedTransitive(r1, r2, r3);
      RoomCore(x + 1, y, room);
      ghost var g4 := Flags();
      ghost var s4, r4 := store, rooms;
      ChainClosed(g1, g3, g4, rows, cols);
      GrowsShrinksUnset(g1, g4, rows, cols);
      ExtendsTransitive(s1, s3, s4);
      ListedTransitive(r1, r3, r4);
      RoomCore(x, y + 1, room);
      ghost var g5 := Flags();
      ChainClosed(g1, g4, g5, rows, cols);
      ExtendsTransitive(s1, s4, store);
      ListedTransitive(r1, r4, rooms);
      assert NeighboursSet(g5, rows, cols, x, y) by {
        assert y > 0 ==> g2[x][y - 1];
        assert x > 0 ==> g3[x - 1][y];
        assert x + 1 < rows ==> g4[x + 1][y];
      }
    }

    /** Starts the fill at (0, 0) with a fresh current list, on a grid with
        nothing visited yet; afterwards every cell is visited. */
    method Search()
      requires Valid() && forall i, j :: InBounds(i, j) ==> !visited[i, j]
      modifies this, visited
      ensures Valid()
      ensures forall i, j :: InBounds(i, j) ==> visited[i, j]
    {
      GrowthKeepsMembers(store, store + [[]], rooms, rooms);
      store := store + [[]];
      ghost var g0 := Flags();
      RoomCore(0, 0, |store| - 1);
      var rows, cols := grid.Length0, grid.Length1;
      if rows > 0 && cols > 0 {
        ghost var g := Flags();
        assert forall x, y :: 0 <= x < rows && 0 <= y < cols ==> !g0[x][y];
        forall i, j | InBounds(i, j) ensures visited[i, j] {
          ClosedFromOriginCoversAll(g, rows, cols, i, j);
        }
      }
    }
  }

  /** The search: every cell holding the room id lands in exactly one of the
      returned lists, and the lists hold nothing else. The grid is only
      read. */
  method RoomSearch(grid: array2<int>, roomId: int) returns (rooms: seq<seq<Cell>>)
    ensures forall r, e :: r in rooms && e in r ==>
      0 <= e.0 < grid.Length0 && 0 <= e.1 < grid.Length1 && grid[e.0, e.1] == roomId
    ensures forall i, j :: 0 <= i < grid.Length0 && 0 <= j < grid.Length1 && grid[i, j] == roomId ==>
      exists r :: r in rooms && (i, j) in r
    ensures forall r1, r2, e :: r1 in rooms && r2 in rooms && e in r1 && e in r2 ==> r1 == r2
  {
    var searcher := new RoomSearcher(grid, roomId);
    searcher.Search();
    rooms := searcher.Rooms();
    searcher.RoomsHoldRoomCells();
    ResolvedRoomsDisjoint(searcher.rooms, searcher.store);
  }
}
