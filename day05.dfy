/** Day 5: boarding passes as binary numbers, and the gap in the sorted
    seat ids (5/src/main.rs). */
module BinaryBoarding {
  import opened Outcomes
  import opened Sorting
  import opened Arith

  /** A decoded pass: its text, its row and its column. */
  datatype SeatCoord = SeatCoord(src: string, row: nat, col: nat)
  {
    /** `SeatCoord::seat_id`. */
    function SeatId(): nat {
      SeatIdOf(row, col)
    }
  }

  /** `seat_id`: eight seats per row. */
  function SeatIdOf(row: nat, col: nat): nat {
    row * 8 + col
  }

  /** The bit a character stands for: B and R are 1, F and L are 0. */
  function Bit(c: char): Option<nat> {
    match c
    case 'B' => Some(1)
    case 'R' => Some(1)
    case 'F' => Some(0)
    case 'L' => Some(0)
    case _ => None
  }

  predicate ValidCode(s: string) {
    forall i :: 0 <= i < |s| ==> Bit(s[i]).Some?
  }

  /** The `u16` the loop builds from a valid code: shift left (losing the top
      bit), then set the new low bit. */
  function Value16(s: string): (v: nat)
    requires ValidCode(s)
    ensures v < 0x1_0000
  {
    if s == [] then 0 else (Value16(s[..|s| - 1]) * 2) % 0x1_0000 + Bit(s[|s| - 1]).value
  }

  /** The code read as a binary number, most significant character first. */
  function Binary(s: string): nat
    requires ValidCode(s)
  {
    if s == [] then 0 else Binary(s[..|s| - 1]) * 2 + Bit(s[|s| - 1]).value
  }

  /** A code of up to 16 characters loses nothing to the `u16`: its value is
      its binary reading, below 2^length. */
  lemma {:induction false} Value16IsBinary(s: string)
    requires ValidCode(s) && |s| <= 16
    ensures Binary(s) < Pow2(|s|)
    ensures Value16(s) == Binary(s)
  {
    if s != [] {
      Value16IsBinary(s[..|s| - 1]);
      Pow2Bound(|s| - 1);
    }
  }

  lemma Pow2Bound(n: nat)
    requires n <= 15
    ensures Pow2(n) <= 0x8000
  {
    Pow2Mono(n, 15);
    assert Pow2(15) == 0x8000;
  }

  /** `decode_seat`: a panic on any character other than B, F, L or R;
      otherwise the row is the value shifted right by three, cut to `u8`,
      and the column its low three bits. */
  method DecodeSeat(ln: string) returns (r: Outcome<SeatCoord>)
    ensures r.Panic? <==> !ValidCode(ln)
    ensures r.Done? ==> r.value == SeatCoord(ln, (Value16(ln) / 8) % 0x100, Value16(ln) % 8)
    ensures r != OutOfFuel
  {
    var num := 0;
    for i := 0 to |ln|
      invariant ValidCode(ln[..i]) && num == Value16(ln[..i])
    {
      num := (num * 2) % 0x1_0000;
      var bit := Bit(ln[i]);
      if bit.None? {
        return Panic;
      }
      assert ln[..i + 1][..i] == ln[..i];
      num := num + bit.value;
    }
    assert ln[..|ln|] == ln;
    r := Done(SeatCoord(ln, (num / 8) % 0x100, num % 8));
  }

  /** For a ten-character pass the seat id is the pass read in binary, and
      the column is below 8. */
  lemma SeatIdIsBinary(ln: string)
    requires ValidCode(ln) && |ln| == 10
    ensures var c := SeatCoord(ln, (Value16(ln) / 8) % 0x100, Value16(ln) % 8);
      c.col < 8 && c.row < 128 && c.SeatId() == Binary(ln)
  {
    Value16IsBinary(ln);
    assert Pow2(10) == 1024;
  }

  /** The first five characters of the example pass: row bits 01011. */
  lemma ExampleHead()
    ensures ValidCode("FBFBB") && Binary("FBFBB") == 11
  {
    assert Binary("F") == 0 by { assert "F"[..0] == ""; }
    assert Binary("FB") == 1 by { assert "FB"[..1] == "F"; }
    assert Binary("FBF") == 2 by { assert "FBF"[..2] == "FB"; }
    assert Binary("FBFB") == 5 by { assert "FBFB"[..3] == "FBF"; }
    assert "FBFBB"[..4] == "FBFB";
  }

  /** The whole example pass, continuing from its first five characters. */
  lemma ExampleBinary()
    ensures ValidCode("FBFBBFFRLR") && Binary("FBFBBFFRLR") == 357
  {
    ExampleHead();
    assert Binary("FBFBBF") == 22 by { assert "FBFBBF"[..5] == "FBFBB"; }
    assert Binary("FBFBBFF") == 44 by { assert "FBFBBFF"[..6] == "FBFBBF"; }
    assert Binary("FBFBBFFR") == 89 by { assert "FBFBBFFR"[..7] == "FBFBBFF"; }
    assert Binary("FBFBBFFRL") == 178 by { assert "FBFBBFFRL"[..8] == "FBFBBFFR"; }
    assert "FBFBBFFRLR"[..9] == "FBFBBFFRL";
  }

  /** The example pass of the unit test: row 44, column 5, seat 357. */
  lemma DecodeExample()
    ensures ValidCode("FBFBBFFRLR")
    ensures Binary("FBFBBFFRLR") == 357
    ensures SeatCoord("FBFBBFFRLR", (Value16("FBFBBFFRLR") / 8) % 0x100, Value16("FBFBBFFRLR") % 8)
      == SeatCoord("FBFBBFFRLR", 44, 5)
  {
    ExampleBinary();
    Value16IsBinary("FBFBBFFRLR");
  }

  // ---------------------------------------------------------------------
  // The missing seat

  function Ids(coords: seq<SeatCoord>): seq<int> {
    seq(|coords|, i requires 0 <= i < |coords| => coords[i].SeatId())
  }

  function MinRow(coords: seq<SeatCoord>): (m: nat)
    requires coords != []
    ensures exists i :: 0 <= i < |coords| && coords[i].row == m
    ensures forall i :: 0 <= i < |coords| ==> m <= coords[i].row
  {
    if |coords| == 1 then coords[0].row
    else
      var m := MinRow(coords[1..]);
      assert forall i :: 1 <= i < |coords| ==> coords[i] == coords[1..][i - 1];
      if coords[0].row <= m then coords[0].row else m
  }

  function MaxRow(coords: seq<SeatCoord>): (m: nat)
    requires coords != []
    ensures exists i :: 0 <= i < |coords| && coords[i].row == m
    ensures forall i :: 0 <= i < |coords| ==> coords[i].row <= m
  {
    if |coords| == 1 then coords[0].row
    else
      var m := MaxRow(coords[1..]);
      assert forall i :: 1 <= i < |coords| ==> coords[i] == coords[1..][i - 1];
      if coords[0].row >= m then coords[0].row else m
  }

  /** The values of `v` within `lo..=hi`, in order. */
  function Within(v: seq<int>, lo: int, hi: int): (r: seq<int>)
    ensures forall x :: x in r <==> x in v && lo <= x <= hi
    ensures Sorted(v) ==> Sorted(r)
  {
    if v == [] then []
    else
      var rest := Within(v[1..], lo, hi);
      assert forall x :: x in v <==> x == v[0] || x in v[1..] by {
        assert v == [v[0]] + v[1..];
      }
      if lo <= v[0] <= hi then
        assert Sorted(v) ==> Sorted([v[0]] + rest) by {
          if Sorted(v) {
            assert Sorted(v[1..]);
            assert forall k :: 0 <= k < |rest| ==> v[0] <= rest[k] by {
              forall k | 0 <= k < |rest| ensures v[0] <= rest[k] {
                assert rest[k] in rest;
              }
            }
            Prepend(v[0], rest);
          }
        }
        [v[0]] + rest
      else
        assert Sorted(v) ==> Sorted(v[1..]);
        rest
  }

  /** `x + 1` for each adjacent pair `(x, y)` with `y - x == 2`. */
  function Gaps(v: seq<int>): seq<int> {
    if |v| < 2 then []
    else (if v[1] - v[0] == 2 then [v[0] + 1] else []) + Gaps(v[1..])
  }

  /** In a sorted sequence a gap is reported exactly for a missing value whose
      two neighbours are both present. */
  lemma {:induction false} GapsExact(v: seq<int>, x: int)
    requires Sorted(v)
    ensures x in Gaps(v) <==> x - 1 in v && x + 1 in v && x !in v
    decreases |v|
  {
    if |v| >= 2 {
      var t := v[1..];
      assert v == [v[0]] + t;
      assert forall y :: y in v <==> y == v[0] || y in t;
      assert forall y :: y in t ==> v[1] <= y by {
        forall y | y in t ensures v[1] <= y {
          var k :| 0 <= k < |t| && t[k] == y;
          assert t[k] == v[k + 1];
        }
      }
      GapsExact(t, x);
      if x in Gaps(v) && x !in Gaps(t) {
        assert v[1] - v[0] == 2 && x == v[0] + 1;
        assert forall y :: y in t ==> y >= v[1];
      }
      if x - 1 in v && x + 1 in v && x !in v && x - 1 !in t {
        assert v[0] == x - 1;
        assert x + 1 in t;
        assert v[1] in t && v[1] != x - 1 && v[1] != x;
      }
    } else if |v| == 1 {
      assert forall y :: y in v ==> y == v[0];
    }
  }

  /** The largest seat id, the first answer `main` prints; no seats at all
      make `max().unwrap()` panic. */
  function MaxSeatId(coords: seq<SeatCoord>): (r: Outcome<nat>)
    ensures r != OutOfFuel
    ensures r.Panic? <==> coords == []
    ensures r.Done? ==> exists i :: 0 <= i < |coords| && coords[i].SeatId() == r.value
    ensures r.Done? ==> forall i :: 0 <= i < |coords| ==> coords[i].SeatId() <= r.value
  {
    if coords == [] then Panic
    else if |coords| == 1 then Done(coords[0].SeatId())
    else
      var m := MaxSeatId(coords[1..]).value;
      assert forall i :: 1 <= i < |coords| ==> coords[i] == coords[1..][i - 1];
      Done(if coords[0].SeatId() >= m then coords[0].SeatId() else m)
  }

  /** The missing seats `main` reports: the seat ids sorted, kept within the
      rows that occur, and every id whose neighbours are both there. */
  function MissingSeats(coords: seq<SeatCoord>): (r: Outcome<seq<int>>)
    ensures r.Panic? <==> coords == []
    ensures r != OutOfFuel
  {
    if coords == [] then Panic
    else
      var lo := SeatIdOf(MinRow(coords), 0);
      var hi := SeatIdOf(MaxRow(coords), 7);
      Done(Gaps(Within(Sort(Ids(coords)), lo, hi)))
  }

  /** The reported seats are exactly the ids within the occupied rows that
      are absent while both neighbours are present. */
  lemma MissingSeatsExact(coords: seq<SeatCoord>, x: int)
    requires coords != []
    ensures var valid := Within(Ids(coords), SeatIdOf(MinRow(coords), 0), SeatIdOf(MaxRow(coords), 7));
      x in MissingSeats(coords).value <==> x - 1 in valid && x + 1 in valid && x !in valid
  {
    var lo := SeatIdOf(MinRow(coords), 0);
    var hi := SeatIdOf(MaxRow(coords), 7);
    var ids := Ids(coords);
    var sorted := Sort(ids);
    assert forall y :: y in sorted <==> y in ids by {
      forall y ensures y in sorted <==> y in ids {
        assert y in sorted <==> y in multiset(sorted);
        assert y in ids <==> y in multiset(ids);
      }
    }
    GapsExact(Within(sorted, lo, hi), x);
  }
}
