/** Day 11: the seating system, a cellular automaton over a grid of floor
    ('.'), empty seats ('L') and occupied seats ('#') (11/src/main.rs). */
module SeatingSystem {
  import opened Outcomes

  type Grid = seq<seq<char>>

  /** The eight neighbour offsets `(dx, dy)`, in the order they are read. */
  const OFFSETS: seq<(int, int)> := [(-1, -1), (0, -1), (1, -1), (-1, 0), (1, 0), (-1, 1), (0, 1), (1, 1)]

  /** Adds `n` to a count that may have failed. */
  function Shift(n: nat, o: Outcome<nat>): Outcome<nat> {
    if o.Done? then Done(n + o.value) else o
  }

  /** Neighbour `k` of `(x, y)`: 1 when it is an occupied seat, 0 when it is
      anything else or lies outside the grid (as wide as its first row); a
      panic when it is inside that box but past the end of a shorter row. */
  function Look(table: Grid, x: nat, y: nat, k: nat): Outcome<nat>
    requires 0 < |table| && k < 8
  {
    var nx := x + OFFSETS[k].0;
    var ny := y + OFFSETS[k].1;
    if nx >= 0 && ny >= 0 && ny < |table| && nx < |table[0]| then
      if nx >= |table[ny]| then Panic
      else if table[ny][nx] == '#' then Done(1) else Done(0)
    else Done(0)
  }

  /** The occupied neighbours `k .. 7` of `(x, y)`. */
  function AdjacentFrom(table: Grid, x: nat, y: nat, k: nat): Outcome<nat>
    requires 0 < |table| && k <= 8
    decreases 8 - k
  {
    if k == 8 then Done(0)
    else
      var v := Look(table, x, y, k);
      if v.Done? then Shift(v.value, AdjacentFrom(table, x, y, k + 1)) else Panic
  }

  /** The inner loop of `update_seats`: the occupied neighbours of `(x, y)`,
      read from the table being updated. */
  method CountAdjacent(table: Grid, x: nat, y: nat) returns (r: Outcome<nat>)
    requires 0 < |table|
    ensures r == AdjacentFrom(table, x, y, 0)
  {
    var occupied: nat := 0;
    for k := 0 to 8
      invariant AdjacentFrom(table, x, y, 0) == Shift(occupied, AdjacentFrom(table, x, y, k))
    {
      AdjacentStep(table, x, y, k, occupied);
      var nx := x + OFFSETS[k].0;
      var ny := y + OFFSETS[k].1;
      if nx >= 0 && ny >= 0 && ny < |table| && nx < |table[0]| {
        if nx >= |table[ny]| {
          assert Look(table, x, y, k) == Panic;
          return Panic;
        }
        if table[ny][nx] == '#' {
          assert Look(table, x, y, k) == Done(1);
          occupied := occupied + 1;
        } else {
          assert Look(table, x, y, k) == Done(0);
        }
      } else {
        assert Look(table, x, y, k) == Done(0);
      }
    }
    return Done(occupied);
  }

  /** One neighbour more: its count moves into the running total, or its
      failure ends the count. */
  lemma AdjacentStep(table: Grid, x: nat, y: nat, k: nat, n: nat)
    requires 0 < |table| && k < 8
    ensures Look(table, x, y, k).Done? ==>
      Shift(n, AdjacentFrom(table, x, y, k)) == Shift(n + Look(table, x, y, k).value, AdjacentFrom(table, x, y, k + 1))
    ensures Look(table, x, y, k).Panic? ==> Shift(n, AdjacentFrom(table, x, y, k)) == Panic
  {
  }

  /** A neighbour count is at most 8, and it fails exactly when one of the
      neighbours lies past the end of a short row. */
  lemma {:induction false} AdjacentMeaning(table: Grid, x: nat, y: nat, k: nat)
    requires 0 < |table| && k <= 8
    ensures AdjacentFrom(table, x, y, k) != OutOfFuel
    ensures AdjacentFrom(table, x, y, k).Done? ==> AdjacentFrom(table, x, y, k).value <= 8 - k
    ensures AdjacentFrom(table, x, y, k).Panic? <==> exists j :: k <= j < 8 && Look(table, x, y, j).Panic?
    decreases 8 - k
  {
    if k < 8 {
      AdjacentMeaning(table, x, y, k + 1);
    }
  }

  /** The rule for one seat: occupied with four or more occupied neighbours
      empties, empty with none fills, anything else stays. */
  function Rule(cell: char, adjacent: nat): char {
    if cell == '#' && adjacent >= 4 then 'L'
    else if cell == 'L' && adjacent == 0 then '#'
    else cell
  }

  /** The next state of cell `(x, y)`: seats follow `Rule`, floor and any
      other character stay as they are. */
  function NewCell(table: Grid, x: nat, y: nat): Outcome<char>
    requires y < |table| && x < |table[y]|
  {
    var cell := table[y][x];
    if cell == '#' || cell == 'L' then
      var a := AdjacentFrom(table, x, y, 0);
      if a.Done? then Done(Rule(cell, a.value)) else Panic
    else Done(cell)
  }

  /** Floor and unknown characters never change; an occupied seat empties
      exactly when at least 4 neighbours are occupied, an empty one fills
      exactly when none is. */
  lemma CellRules(table: Grid, x: nat, y: nat)
    requires y < |table| && x < |table[y]|
    ensures table[y][x] != '#' && table[y][x] != 'L' ==> NewCell(table, x, y) == Done(table[y][x])
    ensures NewCell(table, x, y) != OutOfFuel
    ensures NewCell(table, x, y).Done? && NewCell(table, x, y).value != table[y][x] ==>
      var a := AdjacentFrom(table, x, y, 0);
      a.Done? && ((table[y][x] == '#' && NewCell(table, x, y).value == 'L' && a.value >= 4)
                  || (table[y][x] == 'L' && NewCell(table, x, y).value == '#' && a.value == 0))
  {
  }

  /** The new state of a cell, or the old one where the update fails. */
  function NewCellOr(table: Grid, x: nat, y: nat): char
    requires y < |table| && x < |table[y]|
  {
    var c := NewCell(table, x, y);
    if c.Done? then c.value else table[y][x]
  }

  /** The first `n` cells of row `y` after one round. */
  function NextCells(table: Grid, y: nat, n: nat): (r: seq<char>)
    requires y < |table| && n <= |table[y]|
    ensures |r| == n
  {
    if n == 0 then [] else NextCells(table, y, n - 1) + [NewCellOr(table, n - 1, y)]
  }

  /** Row `y` after one round. */
  function NextRow(table: Grid, y: nat): (r: seq<char>)
    requires y < |table|
    ensures |r| == |table[y]|
  {
    NextCells(table, y, |table[y]|)
  }

  /** The first `m` rows after one round. */
  function NextRows(table: Grid, m: nat): (r: Grid)
    requires m <= |table|
    ensures |r| == m && forall y :: 0 <= y < m ==> |r[y]| == |table[y]|
  {
    if m == 0 then [] else NextRows(table, m - 1) + [NextRow(table, m - 1)]
  }

  /** The grid after one round, of the same shape. */
  function Next(table: Grid): (r: Grid)
    ensures |r| == |table| && forall y :: 0 <= y < |table| ==> |r[y]| == |table[y]|
  {
    NextRows(table, |table|)
  }

  /** Each cell of the next grid is the cell's new state. */
  lemma {:induction false} NextAt(table: Grid, x: nat, y: nat)
    requires y < |table| && x < |table[y]|
    ensures Next(table)[y][x] == NewCellOr(table, x, y)
  {
    NextRowsAt(table, |table|, y);
    NextCellsAt(table, y, |table[y]|, x);
  }

  lemma {:induction false} NextRowsAt(table: Grid, m: nat, y: nat)
    requires y < m <= |table|
    ensures NextRows(table, m)[y] == NextRow(table, y)
  {
    if y < m - 1 {
      NextRowsAt(table, m - 1, y);
    }
  }

  lemma {:induction false} NextCellsAt(table: Grid, y: nat, n: nat, x: nat)
    requires y < |table| && x < n <= |table[y]|
    ensures NextCells(table, y, n)[x] == NewCellOr(table, x, y)
  {
    if x < n - 1 {
      NextCellsAt(table, y, n - 1, x);
    }
  }

  /** No cell of the first `n` in row `y` fails to update. */
  predicate RowSafe(table: Grid, y: nat, n: nat)
    requires y < |table| && n <= |table[y]|
  {
    forall x :: 0 <= x < n ==> NewCell(table, x, y).Done?
  }

  /** No cell of the first `m` rows fails to update. */
  predicate Safe(table: Grid, m: nat)
    requires m <= |table|
  {
    forall y :: 0 <= y < m ==> RowSafe(table, y, |table[y]|)
  }

  /** The positions among the first `n` where two rows differ. */
  function RowDiff(a: seq<char>, b: seq<char>, n: nat): nat
    requires n <= |a| && n <= |b|
  {
    if n == 0 then 0 else RowDiff(a, b, n - 1) + (if a[n - 1] != b[n - 1] then 1 else 0)
  }

  /** The cells of the first `m` rows where two grids of the same shape
      differ. */
  function GridDiff(a: Grid, b: Grid, m: nat): nat
    requires m <= |a| && m <= |b| && forall y :: 0 <= y < m ==> |a[y]| <= |b[y]|
  {
    if m == 0 then 0 else GridDiff(a, b, m - 1) + RowDiff(a[m - 1], b[m - 1], |a[m - 1]|)
  }

  /** What `update_seats` returns: the number of updates and the new grid. */
  datatype Updated = Updated(updates: nat, grid: Grid)

  /** `update_seats`: an empty table panics (`table[0]`), as does a
      neighbour lookup past the end of a short row; otherwise every cell is
      updated from the old table and the changed cells are counted. */
  function Update(table: Grid): Outcome<Updated> {
    if |table| == 0 || !Safe(table, |table|) then Panic
    else Done(Updated(GridDiff(table, Next(table), |table|), Next(table)))
  }

  /** `update_seats`: the cells are written into a copy of the table while
      the neighbours are read from the table itself. */
  method UpdateSeats(table: Grid) returns (r: Outcome<Updated>)
    ensures r == Update(table)
  {
    if |table| == 0 {
      return Panic;
    }
    var updates: nat := 0;
    var cloned := table;
    ghost var next := Next(table);
    for y := 0 to |table|
      invariant |cloned| == |table|
      invariant forall k :: 0 <= k < y ==> cloned[k] == next[k]
      invariant forall k :: y <= k < |table| ==> cloned[k] == table[k]
      invariant Safe(table, y)
      invariant updates == GridDiff(table, next, y)
    {
      NextRowsAt(table, |table|, y);
      var row := UpdateRow(table, y, cloned, updates);
      if !row.Done? {
        assert !Safe(table, |table|);
        return Panic;
      }
      cloned, updates := row.value.grid, row.value.updates;
    }
    assert cloned == next;
    return Done(Updated(updates, cloned));
  }

  /** One pass of the row loop of `update_seats`: row `y` of the copy is
      rewritten cell by cell and the changes are added to the count. */
  method UpdateRow(table: Grid, y: nat, cloned0: Grid, updates0: nat) returns (r: Outcome<Updated>)
    requires y < |table| && |cloned0| == |table| && cloned0[y] == table[y]
    ensures r != OutOfFuel
    ensures r.Panic? ==> !RowSafe(table, y, |table[y]|)
    ensures r.Done? ==>
      && r.value.grid == cloned0[y := NextRow(table, y)]
      && r.value.updates == updates0 + RowDiff(table[y], NextRow(table, y), |table[y]|)
      && RowSafe(table, y, |table[y]|)
  {
    var cloned := cloned0;
    var updates := updates0;
    var row := table[y];
    ghost var want := NextRow(table, y);
    assert want[..0] + row[0..] == row;
    for x := 0 to |row|
      invariant cloned == cloned0[y := want[..x] + row[x..]]
      invariant RowSafe(table, y, x)
      invariant updates == updates0 + RowDiff(row, want, x)
    {
      RowStep(want, row, x);
      var cell := row[x];
      if cell == '.' {
        CellStays(table, x, y);
      } else if cell == '#' || cell == 'L' {
        var adj := CountAdjacent(table, x, y);
        if !adj.Done? {
          SeatFails(table, x, y);
          return Panic;
        }
        CellFollowsRule(table, x, y, adj.value);
        if cell == '#' && adj.value >= 4 {
          cloned := cloned[y := cloned[y][x := 'L']];
          updates := updates + 1;
        } else if cell == 'L' && adj.value == 0 {
          cloned := cloned[y := cloned[y][x := '#']];
          updates := updates + 1;
        }
      } else {
        CellStays(table, x, y);
      }
      SafeOneMore(table, y, x);
    }
    assert want[..|row|] + row[|row|..] == want;
    return Done(Updated(updates, cloned));
  }

  /** Writing the new state of cell `x` moves the boundary between the
      rewritten and the original part of a row by one. */
  lemma RowStep(want: seq<char>, row: seq<char>, x: nat)
    requires x < |row| == |want|
    ensures (want[..x] + row[x..])[x := want[x]] == want[..x + 1] + row[x + 1..]
    ensures want[x] == row[x] ==> want[..x] + row[x..] == want[..x + 1] + row[x + 1..]
  {
    assert want[..x + 1] == want[..x] + [want[x]];
    assert row[x..] == [row[x]] + row[x + 1..];
  }

  /** The cells of a row are safe one more at a time. */
  lemma SafeOneMore(table: Grid, y: nat, x: nat)
    requires y < |table| && x < |table[y]| && RowSafe(table, y, x) && NewCell(table, x, y).Done?
    ensures RowSafe(table, y, x + 1)
  {
  }

  /** A cell that is not a seat keeps its character. */
  lemma CellStays(table: Grid, x: nat, y: nat)
    requires y < |table| && x < |table[y]| && table[y][x] != '#' && table[y][x] != 'L'
    ensures NewCell(table, x, y).Done? && NextRow(table, y)[x] == table[y][x]
  {
    NextCellsAt(table, y, |table[y]|, x);
  }

  /** A seat whose neighbours count `a` takes the state `Rule` gives it. */
  lemma CellFollowsRule(table: Grid, x: nat, y: nat, a: nat)
    requires y < |table| && x < |table[y]| && (table[y][x] == '#' || table[y][x] == 'L')
    requires AdjacentFrom(table, x, y, 0) == Done(a)
    ensures NewCell(table, x, y).Done? && NextRow(table, y)[x] == Rule(table[y][x], a)
  {
    NextCellsAt(table, y, |table[y]|, x);
  }

  /** A seat whose neighbours cannot be counted makes its row fail. */
  lemma SeatFails(table: Grid, x: nat, y: nat)
    requires y < |table| && x < |table[y]| && (table[y][x] == '#' || table[y][x] == 'L')
    requires !AdjacentFrom(table, x, y, 0).Done?
    ensures !RowSafe(table, y, |table[y]|)
  {
    assert !NewCell(table, x, y).Done?;
  }

  /** Rows with no differing position are equal. */
  lemma {:induction false} NoRowDiff(a: seq<char>, b: seq<char>, n: nat)
    requires n <= |a| && n <= |b| && RowDiff(a, b, n) == 0
    ensures a[..n] == b[..n]
  {
    if n > 0 {
      NoRowDiff(a, b, n - 1);
      assert a[..n] == a[..n - 1] + [a[n - 1]];
      assert b[..n] == b[..n - 1] + [b[n - 1]];
    }
  }

  /** Grids that differ nowhere in their first `m` rows agree on them. */
  lemma {:induction false} NoGridDiff(a: Grid, b: Grid, m: nat)
    requires m <= |a| && m <= |b| && forall y :: 0 <= y < m ==> |a[y]| == |b[y]|
    requires GridDiff(a, b, m) == 0
    ensures a[..m] == b[..m]
  {
    if m > 0 {
      NoGridDiff(a, b, m - 1);
      NoRowDiff(a[m - 1], b[m - 1], |a[m - 1]|);
      assert a[m - 1][..|a[m - 1]|] == a[m - 1];
      assert b[m - 1][..|b[m - 1]|] == b[m - 1];
      assert a[..m] == a[..m - 1] + [a[m - 1]];
      assert b[..m] == b[..m - 1] + [b[m - 1]];
    }
  }

  /** A row compared with itself differs nowhere. */
  lemma {:induction false} RowDiffSame(a: seq<char>, n: nat)
    requires n <= |a|
    ensures RowDiff(a, a, n) == 0
  {
    if n > 0 {
      RowDiffSame(a, n - 1);
    }
  }

  /** A grid compared with itself differs nowhere. */
  lemma {:induction false} GridDiffSame(a: Grid, m: nat)
    requires m <= |a|
    ensures GridDiff(a, a, m) == 0
  {
    if m > 0 {
      GridDiffSame(a, m - 1);
      RowDiffSame(a[m - 1], |a[m - 1]|);
    }
  }

  /** The count of `update_seats` is zero if and only if the grid is a
      fixed point of the round. */
  lemma UpdatesZeroIffFixed(table: Grid)
    requires Update(table).Done?
    ensures Update(table).value.updates == 0 <==> Update(table).value.grid == table
  {
    var next := Next(table);
    if GridDiff(table, next, |table|) == 0 {
      NoGridDiff(table, next, |table|);
      assert table[..|table|] == table && next[..|table|] == next;
    } else if next == table {
      GridDiffSame(table, |table|);
    }
  }

  /** `update_until_stable`, with at most `fuel` rounds: the first grid on
      which a round changes nothing. */
  function Settle(floor: Grid, fuel: nat): Outcome<Grid>
    decreases fuel
  {
    if fuel == 0 then OutOfFuel
    else
      var u := Update(floor);
      if !u.Done? then Panic
      else if u.value.updates == 0 then Done(u.value.grid)
      else Settle(u.value.grid, fuel - 1)
  }

  /** `update_until_stable`: rounds until one reports no update. */
  method UpdateUntilStable(inputFloor: Grid, fuel: nat) returns (r: Outcome<Grid>)
    ensures r == Settle(inputFloor, fuel)
  {
    var floor := inputFloor;
    var left := fuel;
    while true
      invariant Settle(inputFloor, fuel) == Settle(floor, left)
      decreases left
    {
      if left == 0 {
        return OutOfFuel;
      }
      var u := UpdateSeats(floor);
      if !u.Done? {
        return Panic;
      }
      if u.value.updates == 0 {
        return Done(u.value.grid);
      }
      floor := u.value.grid;
      left := left - 1;
    }
  }

  /** A settled grid has the shape of the input, and one more round on it
      changes nothing. */
  lemma {:induction false} SettleIsStable(floor: Grid, fuel: nat)
    requires Settle(floor, fuel).Done?
    ensures var g := Settle(floor, fuel).value;
      Update(g) == Done(Updated(0, g))
      && |g| == |floor| && forall y :: 0 <= y < |floor| ==> |g[y]| == |floor[y]|
    decreases fuel
  {
    var u := Update(floor);
    if u.value.updates == 0 {
      UpdatesZeroIffFixed(floor);
    } else {
      SettleIsStable(u.value.grid, fuel - 1);
    }
  }

  /** The occupied seats among the first `n` cells of a row. */
  function RowOccupied(row: seq<char>, n: nat): nat
    requires n <= |row|
  {
    if n == 0 then 0 else RowOccupied(row, n - 1) + (if row[n - 1] == '#' then 1 else 0)
  }

  /** The occupied seats of the first `m` rows. */
  function Occupied(table: Grid, m: nat): nat
    requires m <= |table|
  {
    if m == 0 then 0 else Occupied(table, m - 1) + RowOccupied(table[m - 1], |table[m - 1]|)
  }

  /** `count_occupied_seats`: a counter bumped for every '#' cell. */
  method CountOccupiedSeats(table: Grid) returns (cnt: nat)
    ensures cnt == Occupied(table, |table|)
  {
    cnt := 0;
    for y := 0 to |table|
      invariant cnt == Occupied(table, y)
    {
      var row := table[y];
      for x := 0 to |row|
        invariant cnt == Occupied(table, y) + RowOccupied(row, x)
      {
        if row[x] == '#' {
          cnt := cnt + 1;
        }
      }
    }
  }

  /** The rows laid end to end. */
  function Flatten(table: Grid): seq<char> {
    if table == [] then [] else Flatten(table[..|table| - 1]) + table[|table| - 1]
  }

  /** A row's count is the multiplicity of '#' in it. */
  lemma {:induction false} RowOccupiedIsMultiplicity(row: seq<char>, n: nat)
    requires n <= |row|
    ensures RowOccupied(row, n) == multiset(row[..n])['#']
  {
    if n > 0 {
      RowOccupiedIsMultiplicity(row, n - 1);
      assert row[..n] == row[..n - 1] + [row[n - 1]];
    }
  }

  /** The occupied seats of a grid are the '#' characters of all its rows. */
  lemma {:induction false} OccupiedIsMultiplicity(table: Grid, m: nat)
    requires m <= |table|
    ensures Occupied(table, m) == multiset(Flatten(table[..m]))['#']
  {
    if m > 0 {
      OccupiedIsMultiplicity(table, m - 1);
      var row := table[m - 1];
      RowOccupiedIsMultiplicity(row, |row|);
      assert row[..|row|] == row;
      assert table[..m][..m - 1] == table[..m - 1];
      assert Flatten(table[..m]) == Flatten(table[..m - 1]) + row;
    }
  }
}
