/** Day 3: count the trees met on a straight slope through a map that
    repeats to the right (3/src/main.rs). */
module TobogganTrajectory {
  import opened Outcomes
  import opened Strings
  import opened Arith

  /** The column count: the byte length of the first row. */
  function Width(lines: seq<string>): nat
    requires lines != []
  {
    ByteLen(lines[0])
  }

  /** Where the loop stands before its `k`-th visit, as (column, row): each
      step adds `dx` to the column, wrapped at the width, and `dy` to the row. */
  function Pos(lines: seq<string>, dx: nat, dy: nat, k: nat): (p: (nat, nat))
    requires lines != []
  {
    if k == 0 then (0, 0)
    else
      var p := Pos(lines, dx, dy, k - 1);
      (if Width(lines) == 0 then 0 else (p.0 + dx) % Width(lines), p.1 + dy)
  }

  /** The `k`-th visit sits at row `k * dy` and column `(k * dx) mod width`,
      and the column stays below the width. */
  lemma {:induction false} PosClosedForm(lines: seq<string>, dx: nat, dy: nat, k: nat)
    requires lines != [] && Width(lines) > 0
    ensures Pos(lines, dx, dy, k) == ((k * dx) % Width(lines), k * dy)
    ensures Pos(lines, dx, dy, k).0 < Width(lines)
  {
    if k > 0 {
      var m := k - 1;
      PosClosedForm(lines, dx, dy, m);
      MulSucc(m, dx);
      MulSucc(m, dy);
      ModAddStep(m * dx, dx, Width(lines));
    }
  }

  /** The row index of the `k`-th visit, whatever the width. */
  lemma {:induction false} PosRow(lines: seq<string>, dx: nat, dy: nat, k: nat)
    requires lines != []
    ensures Pos(lines, dx, dy, k).1 == k * dy
  {
    if k > 0 {
      PosRow(lines, dx, dy, k - 1);
      MulSucc(k - 1, dy);
    }
  }

  /** The `k`-th visit lands on a row that exists and is long enough. */
  predicate Fits(lines: seq<string>, dx: nat, dy: nat, k: nat)
    requires lines != []
  {
    var p := Pos(lines, dx, dy, k);
    p.1 < |lines| && p.0 < |lines[p.1]|
  }

  predicate AllFit(lines: seq<string>, dx: nat, dy: nat, n: nat)
    requires lines != []
  {
    forall k :: 0 <= k < n ==> Fits(lines, dx, dy, k)
  }

  /** The number of rows visited, 0, dy, 2*dy, ... below the row count. */
  function Visits(rows: nat, dy: nat): nat
    requires dy > 0
  {
    CeilDiv(rows, dy)
  }

  /** The trees among the first `n` visits. */
  function Trees(lines: seq<string>, dx: nat, dy: nat, n: nat): nat
    requires lines != [] && AllFit(lines, dx, dy, n)
  {
    if n == 0 then 0
    else
      assert Fits(lines, dx, dy, n - 1);
      var p := Pos(lines, dx, dy, n - 1);
      Trees(lines, dx, dy, n - 1) + (if lines[p.1][p.0] == '#' then 1 else 0)
  }

  /** What `count_trees_on_slope` computes: a panic on an empty map or when a
      visit falls off its row, otherwise the trees over all visits. */
  function TreeCount(lines: seq<string>, dx: nat, dy: nat): Outcome<nat>
    requires dy > 0
  {
    if lines == [] || !AllFit(lines, dx, dy, Visits(|lines|, dy)) then Panic
    else Done(Trees(lines, dx, dy, Visits(|lines|, dy)))
  }

  lemma {:induction false} TreesAtMostVisits(lines: seq<string>, dx: nat, dy: nat, n: nat)
    requires lines != [] && AllFit(lines, dx, dy, n)
    ensures Trees(lines, dx, dy, n) <= n
  {
    if n > 0 {
      TreesAtMostVisits(lines, dx, dy, n - 1);
    }
  }

  /** The count never exceeds the number of rows visited. */
  lemma TreeCountBound(lines: seq<string>, dx: nat, dy: nat)
    requires dy > 0
    ensures TreeCount(lines, dx, dy).Done? ==> TreeCount(lines, dx, dy).value <= Visits(|lines|, dy)
  {
    if TreeCount(lines, dx, dy).Done? {
      TreesAtMostVisits(lines, dx, dy, Visits(|lines|, dy));
    }
  }

  /** `count_trees_on_slope`, moving `dx` right and `dy` down per step.  A
      zero `dy` never leaves the first row, so the loop needs `dy > 0` to end. */
  method CountTreesOnSlope(lines: seq<string>, dx: nat, dy: nat) returns (r: Outcome<nat>)
    requires dy > 0
    ensures r == TreeCount(lines, dx, dy)
  {
    if lines == [] {
      return Panic;
    }
    var rowCount := |lines|;
    var colCount := ByteLen(lines[0]);
    var treeCount := 0;
    var x := 0;
    var y := 0;
    ghost var k: nat := 0;
    while y < rowCount
      invariant (x, y) == Pos(lines, dx, dy, k)
      invariant k == 0 || Pos(lines, dx, dy, k - 1).1 < rowCount
      invariant AllFit(lines, dx, dy, k)
      invariant treeCount == Trees(lines, dx, dy, k)
      decreases rowCount - y
    {
      var row := lines[y];
      if x >= |row| {
        FallsOff(lines, dx, dy, k);
        return Panic;
      }
      Advance(lines, dx, dy, k);
      if row[x] == '#' {
        treeCount := treeCount + 1;
      }
      x := (x + dx) % colCount;
      y := y + dy;
      k := k + 1;
    }
    Finished(lines, dx, dy, k);
    r := Done(treeCount);
  }

  /** One visit that fits: the count and the position move on. */
  lemma Advance(lines: seq<string>, dx: nat, dy: nat, k: nat)
    requires lines != [] && AllFit(lines, dx, dy, k) && Fits(lines, dx, dy, k)
    ensures AllFit(lines, dx, dy, k + 1) && Width(lines) > 0
    ensures var p := Pos(lines, dx, dy, k);
      && Trees(lines, dx, dy, k + 1) == Trees(lines, dx, dy, k) + (if lines[p.1][p.0] == '#' then 1 else 0)
      && Pos(lines, dx, dy, k + 1) == ((p.0 + dx) % Width(lines), p.1 + dy)
  {
    assert Fits(lines, dx, dy, 0);
  }

  /** A visit before the last row that falls off its row makes the count panic. */
  lemma FallsOff(lines: seq<string>, dx: nat, dy: nat, k: nat)
    requires dy > 0 && lines != []
    requires Pos(lines, dx, dy, k).1 < |lines| && !Fits(lines, dx, dy, k)
    ensures TreeCount(lines, dx, dy) == Panic
  {
    PosRow(lines, dx, dy, k);
    CeilDivAbove(|lines|, dy, k);
  }

  /** The first visit past the last row ends the count. */
  lemma Finished(lines: seq<string>, dx: nat, dy: nat, k: nat)
    requires dy > 0 && lines != [] && AllFit(lines, dx, dy, k)
    requires Pos(lines, dx, dy, k).1 >= |lines|
    requires k == 0 || Pos(lines, dx, dy, k - 1).1 < |lines|
    ensures TreeCount(lines, dx, dy) == Done(Trees(lines, dx, dy, k))
  {
    PosRow(lines, dx, dy, k);
    if k > 0 {
      PosRow(lines, dx, dy, k - 1);
    }
    CeilDivExact(|lines|, dy, k);
  }

  /** The five slopes `main` multiplies together, as (right, down). */
  const SLOPES: seq<(nat, nat)> := [(1, 1), (3, 1), (5, 1), (7, 1), (1, 2)]

  predicate DownwardSlopes(slopes: seq<(nat, nat)>) {
    forall i :: 0 <= i < |slopes| ==> slopes[i].1 > 0
  }

  /** The product of the tree counts over `slopes`; any panic is a panic. */
  function Product(lines: seq<string>, slopes: seq<(nat, nat)>): (r: Outcome<nat>)
    requires DownwardSlopes(slopes)
    ensures r != OutOfFuel
  {
    if slopes == [] then Done(1)
    else
      var last := slopes[|slopes| - 1];
      var init := Product(lines, slopes[..|slopes| - 1]);
      match (init, TreeCount(lines, last.0, last.1))
      case (Done(p), Done(c)) => Done(p * c)
      case _ => Panic
  }

  /** The loop of `main`: the accumulator starts at 1 and is multiplied by
      the count of each slope in turn. */
  method SlopeProduct(lines: seq<string>, slopes: seq<(nat, nat)>) returns (r: Outcome<nat>)
    requires DownwardSlopes(slopes)
    ensures r == Product(lines, slopes)
  {
    var accum := 1;
    for i := 0 to |slopes|
      invariant Product(lines, slopes[..i]) == Done(accum)
    {
      var (dx, dy) := slopes[i];
      var treeCount := CountTreesOnSlope(lines, dx, dy);
      assert slopes[..i + 1][..i] == slopes[..i];
      if treeCount.Panic? {
        assert Product(lines, slopes[..i + 1]) == Panic;
        ProductPanics(lines, slopes, i + 1);
        return Panic;
      }
      accum := accum * treeCount.value;
    }
    assert slopes[..|slopes|] == slopes;
    r := Done(accum);
  }

  /** The product is a number exactly when every count is. */
  lemma {:induction false} ProductDone(lines: seq<string>, slopes: seq<(nat, nat)>)
    requires DownwardSlopes(slopes)
    ensures Product(lines, slopes).Done? <==>
      forall i :: 0 <= i < |slopes| ==> TreeCount(lines, slopes[i].0, slopes[i].1).Done?
    decreases |slopes|
  {
    if slopes != [] {
      var init := slopes[..|slopes| - 1];
      ProductDone(lines, init);
      assert forall i :: 0 <= i < |init| ==> init[i] == slopes[i];
    }
  }

  /** A panic on a prefix of the slopes is a panic of the whole product. */
  lemma ProductPanics(lines: seq<string>, slopes: seq<(nat, nat)>, n: nat)
    requires DownwardSlopes(slopes) && n <= |slopes|
    requires Product(lines, slopes[..n]) == Panic
    ensures Product(lines, slopes) == Panic
  {
    var p := slopes[..n];
    ProductDone(lines, p);
    ProductDone(lines, slopes);
    var i :| 0 <= i < |p| && !TreeCount(lines, p[i].0, p[i].1).Done?;
    assert p[i] == slopes[i];
  }

  /** A 2 by 2 ASCII map with trees on its diagonal, such as ["#.", ".#"]. */
  predicate Diagonal(lines: seq<string>)
  {
    |lines| == 2 && |lines[0]| == 2 && |lines[1]| == 2 && IsAscii(lines[0])
    && lines[0][0] == '#' && lines[1][1] == '#'
  }

  lemma DiagonalVisits(lines: seq<string>)
    requires Diagonal(lines)
    ensures Width(lines) == 2
    ensures Pos(lines, 1, 1, 0) == (0, 0)
    ensures Pos(lines, 1, 1, 1).0 == 1 && Pos(lines, 1, 1, 1).1 == 1
  {
    AsciiByteOffset(lines[0], 2);
    PosClosedForm(lines, 1, 1, 1);
  }

  /** Both diagonal trees are met on slope (1, 1). */
  lemma DiagonalExample(lines: seq<string>)
    requires Diagonal(lines)
    ensures TreeCount(lines, 1, 1) == Done(2)
  {
    DiagonalVisits(lines);
    assert Fits(lines, 1, 1, 0);
    Advance(lines, 1, 1, 0);
    assert Trees(lines, 1, 1, 1) == 1;
    assert Fits(lines, 1, 1, 1);
    Advance(lines, 1, 1, 1);
    assert Trees(lines, 1, 1, 2) == 2;
    Finished(lines, 1, 1, 2);
  }
}
