/** Day 17: a sparse three-dimensional cellular automaton
    (17/src/main.rs).  The active cells are a set of coordinates; one
    generation scans the bounding cube of the set widened by one cell on
    every side and counts each cell's active neighbours with a hand-written
    iterator over the 26 neighbour offsets. */
module ConwayCubes {
  import opened Outcomes

  const I32_MIN: int := -0x8000_0000
  const I32_MAX: int := 0x7FFF_FFFF

  /** A cell of the grid. */
  datatype Coord = Coord(x: int, y: int, z: int)
  {
    /** `Coord::plus`: componentwise sum. */
    function Plus(other: Coord): (r: Coord)
      ensures r.x - x == other.x && r.y - y == other.y && r.z - z == other.z
    {
      Coord(x + other.x, y + other.y, z + other.z)
    }
  }

  const ORIGIN: Coord := Coord(0, 0, 0)

  /** The range of the neighbour iterator in `step_active_coords`. */
  const NEIGHBOR_RANGE: int := 1

  // ---------------------------------------------------------------------
  // The neighbour offsets, in the order the iterator yields them: z in the
  // outer position, then y, then x, each from -p to p.

  /** The cells `(x..p, y, z)`. */
  function Row(x: int, y: int, z: int, p: int): (r: seq<Coord>)
    decreases p + 1 - x
  {
    if x > p then [] else [Coord(x, y, z)] + Row(x + 1, y, z, p)
  }

  /** The rows `y..p` of the slice `z`, each from `-p`. */
  function Plane(y: int, z: int, p: int): (r: seq<Coord>)
    decreases p + 1 - y
  {
    if y > p then [] else Row(-p, y, z, p) + Plane(y + 1, z, p)
  }

  /** The slices `z..p`, each from `(-p, -p)`. */
  function Space(z: int, p: int): (r: seq<Coord>)
    decreases p + 1 - z
  {
    if z > p then [] else Plane(-p, z, p) + Space(z + 1, p)
  }

  /** The list without the origin. */
  function Strip(s: seq<Coord>): seq<Coord> {
    if s == [] then [] else (if s[0] == ORIGIN then [] else [s[0]]) + Strip(s[1..])
  }

  /** Removing the origin keeps every other element. */
  lemma {:induction false} StripMembers(s: seq<Coord>)
    ensures forall c :: c in Strip(s) <==> c in s && c != ORIGIN
  {
    if s != [] {
      StripMembers(s[1..]);
      assert forall c :: c in s <==> c == s[0] || c in s[1..];
    }
  }

  /** The offsets an iterator of range `p` yields. */
  function Offsets(p: int): seq<Coord> {
    Strip(Space(-p, p))
  }

  predicate InCube(c: Coord, p: int) {
    InSlabs(c, -p, p)
  }

  /** Strict order of the enumeration: by z, then y, then x. */
  predicate Before(a: Coord, b: Coord) {
    a.z < b.z || (a.z == b.z && (a.y < b.y || (a.y == b.y && a.x < b.x)))
  }

  predicate Increasing(s: seq<Coord>) {
    forall i, j :: 0 <= i < j < |s| ==> Before(s[i], s[j])
  }

  lemma StripConcat(a: seq<Coord>, b: seq<Coord>)
    ensures Strip(a + b) == Strip(a) + Strip(b)
  {
    if a == [] {
      assert a + b == b;
    } else {
      var h := if a[0] == ORIGIN then [] else [a[0]];
      assert (a + b)[0] == a[0];
      assert (a + b)[1..] == a[1..] + b;
      StripConcat(a[1..], b);
      calc {
        Strip(a + b);
        h + Strip(a[1..] + b);
        h + (Strip(a[1..]) + Strip(b));
        (h + Strip(a[1..])) + Strip(b);
      }
    }
  }

  /** A row holds exactly its cells. */
  lemma {:induction false} RowMembers(x: int, y: int, z: int, p: int)
    ensures forall c :: c in Row(x, y, z, p) <==> c.y == y && c.z == z && x <= c.x <= p
    decreases p + 1 - x
  {
    if x <= p {
      RowMembers(x + 1, y, z, p);
    }
  }

  /** A row runs from `(x, y, z)` to `(p, y, z)` in increasing order. */
  lemma {:induction false} RowOrder(x: int, y: int, z: int, p: int)
    requires x <= p + 1
    ensures |Row(x, y, z, p)| == p + 1 - x
    ensures Increasing(Row(x, y, z, p))
    ensures x <= p ==> Row(x, y, z, p)[0] == Coord(x, y, z) && Row(x, y, z, p)[p - x] == Coord(p, y, z)
    decreases p + 1 - x
  {
    if x <= p {
      RowOrder(x + 1, y, z, p);
      Concat([Coord(x, y, z)], Row(x + 1, y, z, p));
    }
  }

  /** Two increasing lists, the last of the first before the first of the
      second. */
  lemma Concat(a: seq<Coord>, b: seq<Coord>)
    requires Increasing(a) && Increasing(b)
    requires a != [] && b != [] ==> Before(a[|a| - 1], b[0])
    ensures Increasing(a + b)
  {
    forall i, j | 0 <= i < j < |a + b|
      ensures Before((a + b)[i], (a + b)[j])
    {
      if j < |a| {
      } else if i >= |a| {
        assert (a + b)[i] == b[i - |a|] && (a + b)[j] == b[j - |a|];
      } else {
        var u, v := a[i], b[j - |a|];
        assert i < |a| - 1 ==> Before(u, a[|a| - 1]);
        assert j - |a| > 0 ==> Before(b[0], v);
      }
    }
  }

  /** A plane holds exactly its cells. */
  lemma {:induction false} PlaneMembers(y: int, z: int, p: int)
    ensures forall c :: c in Plane(y, z, p) <==> c.z == z && y <= c.y <= p && -p <= c.x <= p
    decreases p + 1 - y
  {
    if y <= p {
      RowMembers(-p, y, z, p);
      PlaneMembers(y + 1, z, p);
    }
  }

  /** A plane runs from `(-p, y, z)` to `(p, p, z)` in increasing order. */
  lemma {:induction false} PlaneOrder(y: int, z: int, p: int)
    requires p >= 0 && y <= p + 1
    ensures Increasing(Plane(y, z, p))
    ensures y <= p ==> Plane(y, z, p) != [] && Plane(y, z, p)[0] == Coord(-p, y, z) && Plane(y, z, p)[|Plane(y, z, p)| - 1] == Coord(p, p, z)
    decreases p + 1 - y
  {
    if y <= p {
      var r, q := Row(-p, y, z, p), Plane(y + 1, z, p);
      RowOrder(-p, y, z, p);
      PlaneOrder(y + 1, z, p);
      assert Plane(y, z, p) == r + q;
      ConcatRuns(r, q, Coord(-p, y, z), Coord(p, p, z));
    }
  }

  /** Two increasing runs, one after the other, make one run from the
      first's first element to the second's last. */
  lemma ConcatRuns(a: seq<Coord>, b: seq<Coord>, lo: Coord, hi: Coord)
    requires Increasing(a) && a != [] && a[0] == lo
    requires Increasing(b)
    requires b == [] ==> a[|a| - 1] == hi
    requires b != [] ==> Before(a[|a| - 1], b[0]) && b[|b| - 1] == hi
    ensures Increasing(a + b) && a + b != [] && (a + b)[0] == lo && (a + b)[|a + b| - 1] == hi
  {
    Concat(a, b);
    if b != [] {
      assert (a + b)[|a + b| - 1] == b[|b| - 1];
    }
  }

  /** A row has `p + 1 - x` cells. */
  lemma {:induction false} RowLength(x: int, y: int, z: int, p: int)
    requires x <= p + 1
    ensures |Row(x, y, z, p)| == p + 1 - x
    decreases p + 1 - x
  {
    if x <= p {
      RowLength(x + 1, y, z, p);
    }
  }

  /** A plane has `2p + 1` cells per row. */
  lemma {:induction false} PlaneLength(y: int, z: int, p: int, n: int)
    requires p >= 0 && y <= p + 1 && n == 2 * p + 1
    ensures |Plane(y, z, p)| == (p + 1 - y) * n
    decreases p + 1 - y
  {
    if y <= p {
      RowLength(-p, y, z, p);
      PlaneLength(y + 1, z, p, n);
      assert Plane(y, z, p) == Row(-p, y, z, p) + Plane(y + 1, z, p);
      MulStep(p - y, n);
    }
  }

  /** A stack of planes holds exactly its cells. */
  lemma {:induction false} SpaceMembers(z: int, p: int)
    ensures forall c :: c in Space(z, p) <==> InSlabs(c, z, p)
    decreases p + 1 - z
  {
    if z <= p {
      var q, t := Plane(-p, z, p), Space(z + 1, p);
      PlaneMembers(-p, z, p);
      SpaceMembers(z + 1, p);
      assert Space(z, p) == q + t;
      forall c ensures c in q + t <==> InSlabs(c, z, p) {
        assert c in q + t <==> c in q || c in t;
      }
    }
  }

  /** The slices `z..p` of the cube `[-p, p]^3`. */
  predicate InSlabs(c: Coord, z: int, p: int) {
    z <= c.z <= p && -p <= c.y <= p && -p <= c.x <= p
  }

  /** A stack of planes runs from `(-p, -p, z)` to `(p, p, p)` in
      increasing order. */
  lemma {:induction false} SpaceOrder(z: int, p: int)
    requires p >= 0 && z <= p + 1
    ensures Increasing(Space(z, p))
    ensures z <= p ==> Space(z, p) != [] && Space(z, p)[0] == Coord(-p, -p, z) && Space(z, p)[|Space(z, p)| - 1] == Coord(p, p, p)
    decreases p + 1 - z
  {
    if z <= p {
      var r, q := Plane(-p, z, p), Space(z + 1, p);
      PlaneOrder(-p, z, p);
      SpaceOrder(z + 1, p);
      assert Space(z, p) == r + q;
      ConcatRuns(r, q, Coord(-p, -p, z), Coord(p, p, p));
    }
  }

  /** A stack of planes has `(2p + 1)^2` cells per plane. */
  lemma {:induction false} SpaceLength(z: int, p: int, n: int, m: int)
    requires p >= 0 && z <= p + 1 && n == 2 * p + 1 && m == n * n
    ensures |Space(z, p)| == (p + 1 - z) * m
    decreases p + 1 - z
  {
    if z <= p {
      PlaneLength(-p, z, p, n);
      SpaceLength(z + 1, p, n, m);
      assert Space(z, p) == Plane(-p, z, p) + Space(z + 1, p);
      MulStep(p - z, m);
    }
  }

  lemma MulStep(k: int, m: int)
    ensures (k + 1) * m == m + k * m
  {
  }

  /** Removing the origin from an increasing list keeps it increasing. */
  lemma {:induction false} StripShape(s: seq<Coord>)
    requires Increasing(s)
    ensures Increasing(Strip(s))
  {
    if s != [] {
      var t := s[1..];
      assert Increasing(t) by {
        forall i, j | 0 <= i < j < |t| ensures Before(t[i], t[j]) {
          assert t[i] == s[i + 1] && t[j] == s[j + 1];
        }
      }
      StripShape(t);
      if s[0] != ORIGIN {
        StripMembers(t);
        if Strip(t) != [] {
          assert Strip(t)[0] in t;
        }
        Concat([s[0]], Strip(t));
      }
    }
  }

  /** The iterator's offsets are the cells of the cube `[-p, p]^3` other
      than the origin. */
  lemma OffsetsMembers(p: int)
    ensures forall c :: c in Offsets(p) <==> InCube(c, p) && c != ORIGIN
  {
    StripSpaceMembers(-p, p);
  }

  lemma StripSpaceMembers(lo: int, p: int)
    ensures forall c :: c in Strip(Space(lo, p)) <==> InSlabs(c, lo, p) && c != ORIGIN
  {
    SpaceMembers(lo, p);
    StripMembers(Space(lo, p));
  }

  /** They come in increasing (z, y, x) order, so none comes twice. */
  lemma OffsetsIncreasing(p: int)
    requires p >= 0
    ensures Increasing(Offsets(p))
  {
    StripSpaceIncreasing(-p, p);
  }

  lemma StripSpaceIncreasing(lo: int, p: int)
    requires p >= 0 && lo == -p
    ensures Increasing(Strip(Space(lo, p)))
  {
    SpaceOrder(lo, p);
    StripShape(Space(lo, p));
  }

  /** The number of origins in a list. */
  function Origins(s: seq<Coord>): nat {
    if s == [] then 0 else (if s[0] == ORIGIN then 1 else 0) + Origins(s[1..])
  }

  lemma {:induction false} OriginsConcat(a: seq<Coord>, b: seq<Coord>)
    ensures Origins(a + b) == Origins(a) + Origins(b)
  {
    if a == [] {
      assert a + b == b;
    } else {
      assert (a + b)[0] == a[0];
      assert (a + b)[1..] == a[1..] + b;
      OriginsConcat(a[1..], b);
    }
  }

  /** Removing the origin shortens a list by its number of origins. */
  lemma {:induction false} StripLength(s: seq<Coord>)
    ensures |Strip(s)| == |s| - Origins(s)
  {
    if s != [] {
      StripLength(s[1..]);
    }
  }

  /** The origin lies once in the row through it, in no other. */
  lemma {:induction false} RowOrigins(x: int, y: int, z: int, p: int)
    ensures Origins(Row(x, y, z, p)) == if y == 0 && z == 0 && x <= 0 <= p then 1 else 0
    decreases p + 1 - x
  {
    if x <= p {
      RowOrigins(x + 1, y, z, p);
      OriginsConcat([Coord(x, y, z)], Row(x + 1, y, z, p));
    }
  }

  lemma {:induction false} PlaneOrigins(y: int, z: int, p: int)
    requires p >= 0
    ensures Origins(Plane(y, z, p)) == if z == 0 && y <= 0 <= p then 1 else 0
    decreases p + 1 - y
  {
    if y <= p {
      RowOrigins(-p, y, z, p);
      PlaneOrigins(y + 1, z, p);
      OriginsConcat(Row(-p, y, z, p), Plane(y + 1, z, p));
      assert Plane(y, z, p) == Row(-p, y, z, p) + Plane(y + 1, z, p);
    }
  }

  lemma {:induction false} SpaceOrigins(z: int, p: int)
    requires p >= 0
    ensures Origins(Space(z, p)) == if z <= 0 <= p then 1 else 0
    decreases p + 1 - z
  {
    if z <= p {
      PlaneOrigins(-p, z, p);
      SpaceOrigins(z + 1, p);
      OriginsConcat(Plane(-p, z, p), Space(z + 1, p));
      assert Space(z, p) == Plane(-p, z, p) + Space(z + 1, p);
    }
  }

  /** There are `(2p + 1)^3 - 1` of them. */
  lemma OffsetsCount(p: int)
    requires p >= 0
    ensures |Offsets(p)| == (2 * p + 1) * (2 * p + 1) * (2 * p + 1) - 1
  {
    StripSpaceCount(-p, p, 2 * p + 1);
  }

  lemma StripSpaceCount(lo: int, p: int, n: int)
    requires p >= 0 && lo == -p && n == 2 * p + 1
    ensures |Strip(Space(lo, p))| == n * n * n - 1
  {
    SpaceLength(lo, p, n, n * n);
    MulEq(p + 1 - lo, n, n * n);
    assert n * (n * n) == n * n * n;
    SpaceOrigins(lo, p);
    StripLength(Space(lo, p));
  }

  lemma MulEq(a: int, b: int, m: int)
    requires a == b
    ensures a * m == b * m
  {
  }

  /** Range 1 gives the 26 neighbours of a cell. */
  lemma NeighborOffsets(p: int)
    requires p == 1
    ensures |Offsets(p)| == 26
    ensures forall c :: c in Offsets(p) <==> -1 <= c.x <= 1 && -1 <= c.y <= 1 && -1 <= c.z <= 1 && c != ORIGIN
  {
    OffsetsMembers(p);
    OffsetsCount(p);
    CubeOfThree(p);
  }

  lemma CubeOfThree(p: int)
    requires p == 1
    ensures (2 * p + 1) * (2 * p + 1) * (2 * p + 1) - 1 == 26
  {
  }

  /** The offsets still to come when the cursor of an iterator of range `p`
      stands at `(x, y, z)`; nothing once it is past the end. */
  function PendingAt(x: int, y: int, z: int, p: int): seq<Coord> {
    if x > p then [] else Strip(Row(x, y, z, p) + Plane(y + 1, z, p) + Space(z + 1, p))
  }

  /** The cells after `(x, y, z)` in the enumeration. */
  function After(x: int, y: int, z: int, p: int): seq<Coord> {
    Row(x + 1, y, z, p) + Plane(y + 1, z, p) + Space(z + 1, p)
  }

  /** A cursor on a cell other than the origin yields that cell first. */
  lemma PendingHead(x: int, y: int, z: int, p: int)
    requires x <= p && Coord(x, y, z) != ORIGIN
    ensures PendingAt(x, y, z, p) == [Coord(x, y, z)] + Strip(After(x, y, z, p))
    ensures PendingAt(x, y, z, p)[1..] == Strip(After(x, y, z, p))
  {
    var c := Coord(x, y, z);
    var rest := After(x, y, z, p);
    var r, q, t := Row(x + 1, y, z, p), Plane(y + 1, z, p), Space(z + 1, p);
    assert Row(x, y, z, p) == [c] + r;
    assert ([c] + r) + q + t == [c] + (r + q + t);
    StripConcat([c], rest);
    assert Strip([c]) == [c];
  }

  /** A cursor on the origin yields what the next cell along x yields. */
  lemma PendingSkip(x: int, y: int, z: int, p: int)
    requires Coord(x, y, z) == ORIGIN && x < p
    ensures PendingAt(x, y, z, p) == PendingAt(x + 1, y, z, p)
  {
    var r, q, t := Row(x + 1, y, z, p), Plane(y + 1, z, p), Space(z + 1, p);
    var tail := r + q + t;
    assert Row(x, y, z, p) == [ORIGIN] + r;
    assert ([ORIGIN] + r) + q + t == [ORIGIN] + tail;
    StripConcat([ORIGIN], tail);
    assert Strip([ORIGIN]) == [];
  }

  /** What is left after the cursor's cell is what the cursor yields once
      moved along the row, or carried to the next row or plane, or past the
      end after the last cell (`lo` being `-p`). */
  lemma AfterAlongRow(x: int, y: int, z: int, p: int)
    requires x < p
    ensures Strip(After(x, y, z, p)) == PendingAt(x + 1, y, z, p)
  {
  }

  lemma AfterNextRow(x: int, y: int, z: int, p: int, lo: int)
    requires p >= 1 && x == p && y < p && lo == -p
    ensures Strip(After(x, y, z, p)) == PendingAt(lo, y + 1, z, p)
  {
    assert Row(x + 1, y, z, p) == [];
    assert Plane(y + 1, z, p) == Row(lo, y + 1, z, p) + Plane(y + 2, z, p);
    assert After(x, y, z, p) == Row(lo, y + 1, z, p) + Plane(y + 2, z, p) + Space(z + 1, p);
  }

  lemma AfterNextPlane(x: int, y: int, z: int, p: int, lo: int)
    requires p >= 1 && x == p && y == p && z < p && lo == -p
    ensures Strip(After(x, y, z, p)) == PendingAt(lo, lo, z + 1, p)
  {
    assert Row(x + 1, y, z, p) == [] && Plane(y + 1, z, p) == [];
    assert Space(z + 1, p) == Plane(lo, z + 1, p) + Space(z + 2, p);
    assert Plane(lo, z + 1, p) == Row(lo, lo, z + 1, p) + Plane(lo + 1, z + 1, p);
    assert After(x, y, z, p) == Row(lo, lo, z + 1, p) + Plane(lo + 1, z + 1, p) + Space(z + 2, p);
  }

  lemma AfterEnd(x: int, y: int, z: int, p: int)
    requires x == p && y == p && z == p
    ensures Strip(After(x, y, z, p)) == PendingAt(p + 1, p + 1, p + 1, p)
  {
    assert Row(x + 1, y, z, p) == [] && Plane(y + 1, z, p) == [] && Space(z + 1, p) == [];
  }

  /** The cursor's next position after `(x, y, z)`. */
  predicate Successor(x: int, y: int, z: int, p: int, nx: int, ny: int, nz: int) {
    if x < p then nx == x + 1 && ny == y && nz == z
    else if y < p then nx == -p && ny == y + 1 && nz == z
    else if z < p then nx == -p && ny == -p && nz == z + 1
    else nx == p + 1 && ny == p + 1 && nz == p + 1
  }

  lemma AfterStep(x: int, y: int, z: int, p: int, nx: int, ny: int, nz: int)
    requires p >= 1 && -p <= x <= p && -p <= y <= p && -p <= z <= p
    requires Successor(x, y, z, p, nx, ny, nz)
    ensures Strip(After(x, y, z, p)) == PendingAt(nx, ny, nz, p)
  {
    if x < p {
      AfterAlongRow(x, y, z, p);
    } else if y < p {
      AfterNextRow(x, y, z, p, nx);
    } else if z < p {
      AfterNextPlane(x, y, z, p, nx);
    } else {
      AfterEnd(x, y, z, p);
    }
  }

  // ---------------------------------------------------------------------
  // The iterator.

  /** `NeighborCoords`: a cursor over the cube `[-p, p]^3`, yielding every
      cell but the origin.  Once past the last cell all three cursor fields
      stand at `p + 1`. */
  class NeighborCoords {
    var xOffMin: int
    var xOffMax: int
    var yOffMin: int
    var yOffMax: int
    var zOffMin: int
    var zOffMax: int
    var xCurr: int
    var yCurr: int
    var zCurr: int

    /** The bounds are `-p..p` on every axis for some `p >= 1`, and the
        cursor is a cell of the cube or past the end. */
    ghost predicate Valid()
      reads this
    {
      var p := xOffMax;
      && p >= 1
      && xOffMin == -p && yOffMin == -p && zOffMin == -p && yOffMax == p && zOffMax == p
      && ((xCurr == p + 1 && yCurr == p + 1 && zCurr == p + 1)
          || (-p <= xCurr <= p && -p <= yCurr <= p && -p <= zCurr <= p))
    }

    ghost function Range(): int
      reads this
      requires Valid()
    {
      xOffMax
    }

    /** The offsets still to come. */
    ghost function Pending(): seq<Coord>
      reads this
      requires Valid()
    {
      PendingAt(xCurr, yCurr, zCurr, Range())
    }

    /** `NeighborCoords::new_abs`: the cube of half-width `|absRange|`,
        cursor on its first cell.  A range of 0 is excluded: from it the
        iterator skips the origin, runs off along the x axis and never
        ends, and the program only ever asks for range 1. */
    constructor NewAbs(absRange: int)
      requires absRange != 0
      ensures Valid() && Range() == if absRange < 0 then -absRange else absRange
      ensures Pending() == Offsets(Range())
    {
      var neg := if absRange < 0 then absRange else -absRange;
      var pos := -neg;
      xOffMin, xOffMax := neg, pos;
      yOffMin, yOffMax := neg, pos;
      zOffMin, zOffMax := neg, pos;
      xCurr, yCurr, zCurr := neg, neg, neg;
      new;
      assert Row(neg, neg, neg, pos) + Plane(neg + 1, neg, pos) == Plane(neg, neg, pos);
      assert Plane(neg, neg, pos) + Space(neg + 1, pos) == Space(neg, pos);
    }

    /** `Iterator::next` for `NeighborCoords`: the first pending offset, or
        `None` when none is left. */
    method Next() returns (r: Option<Coord>)
      requires Valid()
      modifies this
      ensures Valid() && Range() == old(Range())
      ensures old(Pending()) == [] ==> r == None && Pending() == []
      ensures old(Pending()) != [] ==> r == Some(old(Pending())[0]) && Pending() == old(Pending())[1..]
    {
      if xCurr > xOffMax && yCurr > yOffMax && zCurr > zOffMax {
        return None;
      }
      ghost var p := xOffMax;
      ghost var before := Pending();
      if xCurr == 0 && yCurr == 0 && zCurr == 0 {
        PendingSkip(xCurr, yCurr, zCurr, p);
        xCurr := xCurr + 1;
        assert Pending() == before;
      }
      var c := Coord(xCurr, yCurr, zCurr);
      PendingHead(xCurr, yCurr, zCurr, p);
      assert before[0] == c && before[1..] == Strip(After(xCurr, yCurr, zCurr, p));
      Advance();
      return Some(c);
    }

    /** The cursor moved past its cell: along the row, or carried to the
        start of the next row or plane, or past the end after the last
        cell. */
    method Advance()
      requires Valid() && xCurr <= xOffMax
      modifies this
      ensures Valid() && Range() == old(Range())
      ensures Pending() == Strip(After(old(xCurr), old(yCurr), old(zCurr), Range()))
    {
      ghost var x, y, z := xCurr, yCurr, zCurr;
      if xCurr == xOffMax {
        if yCurr == yOffMax {
          if zCurr == zOffMax {
            zCurr := zCurr + 1;
            xCurr := xCurr + 1;
            yCurr := yCurr + 1;
          } else {
            zCurr := zCurr + 1;
            yCurr := yOffMin;
            xCurr := xOffMin;
          }
        } else {
          yCurr := yCurr + 1;
          xCurr := xOffMin;
        }
      } else {
        xCurr := xCurr + 1;
      }
      AfterStep(x, y, z, xOffMax, xCurr, yCurr, zCurr);
    }
  }

  // ---------------------------------------------------------------------
  // Counting neighbours.

  /** The number of offsets in `offs` that lead from `c` to an active cell. */
  function CountActive(active: set<Coord>, c: Coord, offs: seq<Coord>): nat {
    if offs == [] then 0
    else (if c.Plus(offs[0]) in active then 1 else 0) + CountActive(active, c, offs[1..])
  }

  /** The active neighbours of `c`, counted over the iterator's offsets. */
  function NeighborCount(active: set<Coord>, c: Coord): nat {
    CountActive(active, c, Offsets(NEIGHBOR_RANGE))
  }

  /** The neighbour count of the closure in `step_active_coords`: the
      iterator of range 1 run to its end, adding 1 per active neighbour. */
  method CountNeighbors(active: set<Coord>, c: Coord) returns (count: nat)
    ensures count == NeighborCount(active, c)
  {
    var it := new NeighborCoords.NewAbs(NEIGHBOR_RANGE);
    count := 0;
    while true
      invariant it.Valid() && count + CountActive(active, c, it.Pending()) == NeighborCount(active, c)
      decreases |it.Pending()|
    {
      var nc := it.Next();
      if nc.None? {
        break;
      }
      if c.Plus(nc.value) in active {
        count := count + 1;
      }
    }
  }

  /** Over a list without repeats, the count is the number of distinct
      offsets leading to an active cell. */
  lemma {:induction false} CountActiveIsCard(active: set<Coord>, c: Coord, offs: seq<Coord>)
    requires forall i, j :: 0 <= i < j < |offs| ==> offs[i] != offs[j]
    ensures CountActive(active, c, offs) == |set o | o in offs && c.Plus(o) in active|
  {
    if offs != [] {
      var t := offs[1..];
      CountActiveIsCard(active, c, t);
      var rest := set o | o in t && c.Plus(o) in active;
      var all := set o | o in offs && c.Plus(o) in active;
      assert offs[0] !in t;
      if c.Plus(offs[0]) in active {
        assert all == rest + {offs[0]};
      } else {
        assert all == rest;
      }
    }
  }

  /** The neighbour count is the number of active cells among the 26 cells
      around `c`. */
  lemma NeighborCountMeaning(active: set<Coord>, c: Coord)
    ensures NeighborCount(active, c) == |set x, y, z | -1 <= x <= 1 && -1 <= y <= 1 && -1 <= z <= 1 &&
      Coord(x, y, z) != ORIGIN && c.Plus(Coord(x, y, z)) in active :: Coord(x, y, z)|
  {
    OffsetsMembers(NEIGHBOR_RANGE);
    OffsetsIncreasing(NEIGHBOR_RANGE);
    CountActiveIsCard(active, c, Offsets(NEIGHBOR_RANGE));
    var cube := set x, y, z | -1 <= x <= 1 && -1 <= y <= 1 && -1 <= z <= 1 &&
      Coord(x, y, z) != ORIGIN && c.Plus(Coord(x, y, z)) in active :: Coord(x, y, z);
    var listed := set o | o in Offsets(NEIGHBOR_RANGE) && c.Plus(o) in active;
    forall o | o in listed ensures o in cube {
      assert o == Coord(o.x, o.y, o.z);
    }
    forall o | o in cube ensures o in listed {
      assert InCube(o, NEIGHBOR_RANGE);
    }
    assert listed == cube;
  }

  /** A cell with no active cell around it has no active neighbour. */
  lemma {:induction false} CountActiveNone(active: set<Coord>, c: Coord, offs: seq<Coord>)
    requires forall o :: o in offs ==> c.Plus(o) !in active
    ensures CountActive(active, c, offs) == 0
  {
    if offs != [] {
      CountActiveNone(active, c, offs[1..]);
    }
  }

  // ---------------------------------------------------------------------
  // The rule.

  /** A cell is active in the next generation when it is active with 2 or
      3 active neighbours, or inactive with exactly 3. */
  predicate Alive(active: set<Coord>, c: Coord) {
    var n := NeighborCount(active, c);
    if c in active then n == 2 || n == 3 else n == 3
  }

  /** Within one cell of `c` on every axis. */
  predicate Near(a: Coord, c: Coord) {
    -1 <= a.x - c.x <= 1 && -1 <= a.y - c.y <= 1 && -1 <= a.z - c.z <= 1
  }

  /** A cell that is alive next has an active cell within one step. */
  lemma AliveHasActiveNear(active: set<Coord>, c: Coord)
    requires Alive(active, c)
    ensures exists a :: a in active && Near(a, c)
  {
    if c !in active {
      if forall o :: o in Offsets(NEIGHBOR_RANGE) ==> c.Plus(o) !in active {
        CountActiveNone(active, c, Offsets(NEIGHBOR_RANGE));
      }
      var o :| o in Offsets(NEIGHBOR_RANGE) && c.Plus(o) in active;
      OffsetsMembers(NEIGHBOR_RANGE);
      assert Near(c.Plus(o), c);
    } else {
      assert Near(c, c);
    }
  }

  /** A cell alive next is an active cell plus an offset or the origin. */
  lemma AliveFrom(active: set<Coord>, c: Coord) returns (a: Coord, o: Coord)
    requires Alive(active, c)
    ensures a in active && o in Offsets(NEIGHBOR_RANGE) + [ORIGIN] && a.Plus(o) == c
  {
    AliveHasActiveNear(active, c);
    a :| a in active && Near(a, c);
    o := Coord(c.x - a.x, c.y - a.y, c.z - a.z);
    OffsetsMembers(NEIGHBOR_RANGE);
    assert InCube(o, 1);
    assert o in Offsets(NEIGHBOR_RANGE) + [ORIGIN];
  }

  /** The next generation: every cell alive under the rule.  Such a cell
      lies within one step of an active cell, which bounds the set. */
  ghost function NextGen(active: set<Coord>): (r: set<Coord>)
    ensures forall c :: c in r <==> Alive(active, c)
  {
    var r := set a, o | a in active && o in Offsets(NEIGHBOR_RANGE) + [ORIGIN] && Alive(active, a.Plus(o)) :: a.Plus(o);
    forall c | Alive(active, c)
      ensures c in r
    {
      var a, o := AliveFrom(active, c);
    }
    r
  }

  /** An empty grid stays empty. */
  lemma EmptyStaysEmpty(active: set<Coord>)
    requires active == {}
    ensures NextGen(active) == {}
  {
    forall c | c in NextGen(active)
      ensures false
    {
      CountActiveNone(active, c, Offsets(NEIGHBOR_RANGE));
    }
  }

  /** The generations after `n` steps. */
  ghost function Generations(active: set<Coord>, n: nat): set<Coord> {
    if n == 0 then active else NextGen(Generations(active, n - 1))
  }

  // ---------------------------------------------------------------------
  // The bounding cube.

  predicate InI32(c: Coord) {
    I32_MIN <= c.x <= I32_MAX && I32_MIN <= c.y <= I32_MAX && I32_MIN <= c.z <= I32_MAX
  }

  /** Every cell of `coords` lies between `lo` and `hi` on every axis. */
  predicate Encloses(coords: set<Coord>, lo: Coord, hi: Coord) {
    forall c :: c in coords ==> lo.x <= c.x <= hi.x && lo.y <= c.y <= hi.y && lo.z <= c.z <= hi.z
  }

  /** Every bound is reached by some cell of `coords`. */
  predicate Tight(coords: set<Coord>, lo: Coord, hi: Coord) {
    && (exists c :: c in coords && c.x == lo.x) && (exists c :: c in coords && c.x == hi.x)
    && (exists c :: c in coords && c.y == lo.y) && (exists c :: c in coords && c.y == hi.y)
    && (exists c :: c in coords && c.z == lo.z) && (exists c :: c in coords && c.z == hi.z)
  }

  /** `lo` and `hi` hold the true minimum and maximum of every axis. */
  predicate IsBounds(coords: set<Coord>, lo: Coord, hi: Coord) {
    Encloses(coords, lo, hi) && Tight(coords, lo, hi)
  }

  function Min(a: int, b: int): int { if a < b then a else b }
  function Max(a: int, b: int): int { if a < b then b else a }

  /** `bounding_cube`: the origin twice for an empty set, otherwise the
      per-axis minimum and maximum over the set, starting from the `i32`
      extremes. */
  method BoundingCube(coords: set<Coord>) returns (lo: Coord, hi: Coord)
    requires forall c :: c in coords ==> InI32(c)
    ensures coords == {} ==> lo == ORIGIN && hi == ORIGIN
    ensures coords != {} ==> IsBounds(coords, lo, hi)
    ensures lo.x <= hi.x && lo.y <= hi.y && lo.z <= hi.z
  {
    var xMin, xMax, yMin, yMax, zMin, zMax := I32_MAX, I32_MIN, I32_MAX, I32_MIN, I32_MAX, I32_MIN;
    if |coords| == 0 {
      return ORIGIN, ORIGIN;
    }
    var rest := coords;
    ghost var seen: set<Coord> := {};
    while rest != {}
      invariant seen == coords - rest && rest <= coords
      invariant Scanned(seen, Coord(xMin, yMin, zMin), Coord(xMax, yMax, zMax))
      decreases |rest|
    {
      var c :| c in rest;
      ScanStep(seen, c, Coord(xMin, yMin, zMin), Coord(xMax, yMax, zMax));
      xMin := Min(xMin, c.x);
      yMin := Min(yMin, c.y);
      zMin := Min(zMin, c.z);
      xMax := Max(xMax, c.x);
      yMax := Max(yMax, c.y);
      zMax := Max(zMax, c.z);
      rest := rest - {c};
      seen := seen + {c};
    }
    TightOrdered(coords, Coord(xMin, yMin, zMin), Coord(xMax, yMax, zMax));
    return Coord(xMin, yMin, zMin), Coord(xMax, yMax, zMax);
  }

  /** The loop state of `bounding_cube`: still the `i32` extremes before the
      first cell, the bounds of the cells seen after it. */
  predicate Scanned(seen: set<Coord>, lo: Coord, hi: Coord) {
    if seen == {} then lo == Coord(I32_MAX, I32_MAX, I32_MAX) && hi == Coord(I32_MIN, I32_MIN, I32_MIN)
    else IsBounds(seen, lo, hi)
  }

  /** One step of the scan: taking in `c` by per-axis minimum and maximum. */
  lemma ScanStep(seen: set<Coord>, c: Coord, lo: Coord, hi: Coord)
    requires Scanned(seen, lo, hi) && InI32(c)
    ensures Scanned(seen + {c}, Coord(Min(lo.x, c.x), Min(lo.y, c.y), Min(lo.z, c.z)),
                                Coord(Max(hi.x, c.x), Max(hi.y, c.y), Max(hi.z, c.z)))
  {
    EnclosesAdd(seen, c, lo, hi);
    if seen != {} {
      TightAdd(seen, c, lo, hi);
    }
  }

  /** Widening the bounds to take in `c` keeps every earlier cell inside. */
  lemma EnclosesAdd(seen: set<Coord>, c: Coord, lo: Coord, hi: Coord)
    requires Encloses(seen, lo, hi)
    ensures Encloses(seen + {c}, Coord(Min(lo.x, c.x), Min(lo.y, c.y), Min(lo.z, c.z)),
                                 Coord(Max(hi.x, c.x), Max(hi.y, c.y), Max(hi.z, c.z)))
  {
  }

  /** Widening the bounds to take in `c` keeps each bound reached. */
  lemma TightAdd(seen: set<Coord>, c: Coord, lo: Coord, hi: Coord)
    requires Tight(seen, lo, hi)
    ensures Tight(seen + {c}, Coord(Min(lo.x, c.x), Min(lo.y, c.y), Min(lo.z, c.z)),
                              Coord(Max(hi.x, c.x), Max(hi.y, c.y), Max(hi.z, c.z)))
  {
  }

  /** Reached bounds of an enclosed set are in order. */
  lemma TightOrdered(coords: set<Coord>, lo: Coord, hi: Coord)
    requires IsBounds(coords, lo, hi)
    ensures lo.x <= hi.x && lo.y <= hi.y && lo.z <= hi.z
  {
  }

  /** The bounds of a set are determined by it. */
  lemma BoundsUnique(coords: set<Coord>, lo: Coord, hi: Coord, lo': Coord, hi': Coord)
    requires IsBounds(coords, lo, hi) && IsBounds(coords, lo', hi')
    ensures lo == lo' && hi == hi'
  {
  }

  /** The bounds of a single cell are that cell on both ends. */
  lemma BoundsOfOne(c: Coord, lo: Coord, hi: Coord)
    requires IsBounds({c}, lo, hi)
    ensures lo == c && hi == c
  {
  }

  /** The cube from `(-1, -1, -1)` to `(1, 1, 1)`, and with the corners
      `(-2, -2, -2)` and `(2, 2, 2)` added, the larger cube. */
  lemma BoundsExample(s1: set<Coord>, s2: set<Coord>, lo1: Coord, hi1: Coord, lo2: Coord, hi2: Coord)
    requires s1 == {Coord(-1, -1, -1), Coord(1, 1, 1)} && s2 == s1 + {Coord(-2, -2, -2), Coord(2, 2, 2)}
    requires IsBounds(s1, lo1, hi1) && IsBounds(s2, lo2, hi2)
    ensures lo1 == Coord(-1, -1, -1) && hi1 == Coord(1, 1, 1)
    ensures lo2 == Coord(-2, -2, -2) && hi2 == Coord(2, 2, 2)
  {
    assert Coord(-1, -1, -1) in s1 && Coord(1, 1, 1) in s1;
    assert Coord(-2, -2, -2) in s2 && Coord(2, 2, 2) in s2;
  }

  // ---------------------------------------------------------------------
  // One generation.

  /** Within the bounds widened by one on every side. */
  predicate InWidened(c: Coord, lo: Coord, hi: Coord) {
    lo.x - 1 <= c.x <= hi.x + 1 && lo.y - 1 <= c.y <= hi.y + 1 && lo.z - 1 <= c.z <= hi.z + 1
  }

  /** Scanning the bounding cube widened by one loses no cell of the next
      generation. */
  lemma AliveInWidened(active: set<Coord>, lo: Coord, hi: Coord, c: Coord)
    requires Encloses(active, lo, hi) && Alive(active, c)
    ensures InWidened(c, lo, hi)
  {
    AliveHasActiveNear(active, c);
  }

  /** The body of the innermost loop of `step_active_coords`: `curr` joins
      the next generation when the rule keeps it alive or brings it to life. */
  method StepCell(active: set<Coord>, next0: set<Coord>, curr: Coord) returns (next: set<Coord>)
    ensures forall c :: c in next <==> c in next0 || (c == curr && Alive(active, c))
  {
    next := next0;
    var count := CountNeighbors(active, curr);
    var currIsActive := curr in active;
    if currIsActive && (count == 2 || count == 3) {
      next := next + {curr};
    } else if !currIsActive && count == 3 {
      next := next + {curr};
    }
  }

  /** The innermost loop of `step_active_coords`: the cells of one row,
      each kept or born by the rule. */
  method StepRow(active: set<Coord>, next0: set<Coord>, lo: Coord, hi: Coord, y: int, z: int)
    returns (next: set<Coord>)
    requires lo.x <= hi.x
    ensures forall c :: c in next <==>
      c in next0 || (c.y == y && c.z == z && lo.x - 1 <= c.x <= hi.x + 1 && Alive(active, c))
  {
    next := next0;
    for x := lo.x - 1 to hi.x + 2
      invariant forall c :: c in next <==>
        c in next0 || (c.y == y && c.z == z && lo.x - 1 <= c.x < x && Alive(active, c))
    {
      next := StepCell(active, next, Coord(x, y, z));
    }
  }

  /** The middle loop: the rows of one plane. */
  method StepPlane(active: set<Coord>, next0: set<Coord>, lo: Coord, hi: Coord, z: int)
    returns (next: set<Coord>)
    requires lo.x <= hi.x && lo.y <= hi.y
    ensures forall c :: c in next <==>
      c in next0 || (c.z == z && lo.y - 1 <= c.y <= hi.y + 1 && lo.x - 1 <= c.x <= hi.x + 1 && Alive(active, c))
  {
    next := next0;
    for y := lo.y - 1 to hi.y + 2
      invariant forall c :: c in next <==>
        c in next0 || (c.z == z && lo.y - 1 <= c.y < y && lo.x - 1 <= c.x <= hi.x + 1 && Alive(active, c))
    {
      next := StepRow(active, next, lo, hi, y, z);
    }
  }

  /** `step_active_coords`: the next generation of `active`. */
  method StepActiveCoords(active: set<Coord>) returns (next: set<Coord>)
    requires forall c :: c in active ==> InI32(c)
    ensures next == NextGen(active)
  {
    var lo, hi := BoundingCube(active);
    next := {};
    for z := lo.z - 1 to hi.z + 2
      invariant forall c :: c in next <==> lo.z - 1 <= c.z < z && InWidened(c, lo, hi) && Alive(active, c)
    {
      next := StepPlane(active, next, lo, hi, z);
    }
    forall c | Alive(active, c)
      ensures c in next
    {
      if active == {} {
        EmptyStaysEmpty(active);
        assert false;
      }
      AliveInWidened(active, lo, hi, c);
    }
  }

  // ---------------------------------------------------------------------
  // Running the simulation.

  /** Every coordinate of `c` is at least `m` away from the `i32` limits. */
  predicate WithinMargin(c: Coord, m: int) {
    I32_MIN + m <= c.x <= I32_MAX - m && I32_MIN + m <= c.y <= I32_MAX - m && I32_MIN + m <= c.z <= I32_MAX - m
  }

  /** A generation reaches at most one step further than the one before. */
  lemma NextGenMargin(active: set<Coord>, m: int)
    requires forall c :: c in active ==> WithinMargin(c, m)
    ensures forall c :: c in NextGen(active) ==> WithinMargin(c, m - 1)
  {
    forall c | c in NextGen(active)
      ensures WithinMargin(c, m - 1)
    {
      AliveHasActiveNear(active, c);
    }
  }

  /** The loop of `main`: `n` steps from `initial`.  The starting cells stay
      `n` away from the `i32` limits, so no coordinate overflows. */
  method RunGenerations(initial: set<Coord>, n: nat) returns (active: set<Coord>)
    requires forall c :: c in initial ==> WithinMargin(c, n)
    ensures active == Generations(initial, n)
  {
    active := initial;
    for k := 0 to n
      invariant active == Generations(initial, k)
      invariant forall c :: c in active ==> WithinMargin(c, n - k)
    {
      NextGenMargin(active, n - k);
      active := StepActiveCoords(active);
    }
  }

  // ---------------------------------------------------------------------
  // Reading the starting plane.

  /** Cell `c` is marked `#` in the text: column `x` of line `y`, on plane 0. */
  predicate IsSeed(lines: seq<string>, c: Coord) {
    c.z == 0 && 0 <= c.y < |lines| && 0 <= c.x < |lines[c.y]| && lines[c.y][c.x] == '#'
  }

  /** `read_plane`: the active cells of the starting plane. */
  method ReadPlane(lines: seq<string>) returns (active: set<Coord>)
    ensures forall c :: c in active <==> IsSeed(lines, c)
  {
    active := {};
    for y := 0 to |lines|
      invariant forall c :: c in active <==> IsSeed(lines, c) && c.y < y
    {
      var row := lines[y];
      for x := 0 to |row|
        invariant forall c :: c in active <==> IsSeed(lines, c) && (c.y < y || (c.y == y && c.x < x))
      {
        if row[x] == '#' {
          active := active + {Coord(x, y, 0)};
        }
      }
    }
  }

  /** The first example: the glider `.#.`, `..#`, `###`. */
  lemma SeedExample(lines: seq<string>)
    requires lines == [".#.", "..#", "###"]
    ensures !IsSeed(lines, Coord(0, 0, 0)) && IsSeed(lines, Coord(1, 0, 0)) && !IsSeed(lines, Coord(2, 0, 0))
    ensures !IsSeed(lines, Coord(0, 1, 0)) && !IsSeed(lines, Coord(1, 1, 0)) && IsSeed(lines, Coord(2, 1, 0))
    ensures IsSeed(lines, Coord(0, 2, 0)) && IsSeed(lines, Coord(1, 2, 0)) && IsSeed(lines, Coord(2, 2, 0))
  {
  }

  /** `main`: the number of active cells after six steps from the plane in
      `lines`, whose width and height stay six short of the `i32` limit. */
  method Part1(lines: seq<string>) returns (count: nat)
    requires |lines| <= I32_MAX - 6 && forall i :: 0 <= i < |lines| ==> |lines[i]| <= I32_MAX - 6
    ensures exists seeds :: (forall c :: c in seeds <==> IsSeed(lines, c)) && count == |Generations(seeds, 6)|
  {
    var seeds := ReadPlane(lines);
    var active := RunGenerations(seeds, 6);
    count := |active|;
  }
}
