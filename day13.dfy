/** Day 13, part two: the bus schedule line and the earliest timestamp at
    which every listed bus departs exactly its offset (its position in the
    list) minutes later, found by sieving one bus at a time. */
module ShuttleSearch {
  import opened Outcomes
  import opened Strings
  import opened Decimal
  import opened Arith

  /** A bus that is listed with its id and its position in the list. */
  datatype BusSched = BusSched(busId: nat, offset: nat)

  // ---------------------------------------------------------------------
  // The schedule line.

  /** The tokens from position `i` on that parse as `u32`, each paired with
      its position; `x` and every other unparsable token is skipped. */
  function SchedulesFrom(tokens: seq<string>, i: nat): (r: seq<BusSched>)
    requires i <= |tokens|
    decreases |tokens| - i
    ensures forall s :: s in r ==>
      i <= s.offset < |tokens| && ParseUnsigned(tokens[s.offset], U32_MAX) == Some(s.busId)
    ensures forall j :: i <= j < |tokens| && ParseUnsigned(tokens[j], U32_MAX).Some? ==>
      BusSched(ParseUnsigned(tokens[j], U32_MAX).value, j) in r
    ensures forall a, b :: 0 <= a < b < |r| ==> r[a].offset < r[b].offset
  {
    if i == |tokens| then []
    else
      var rest := SchedulesFrom(tokens, i + 1);
      match ParseUnsigned(tokens[i], U32_MAX)
      case Some(v) =>
        assert forall b :: 0 < b < |rest| + 1 ==> ([BusSched(v, i)] + rest)[b] in rest;
        [BusSched(v, i)] + rest
      case None => rest
  }

  /** The schedules of the second input line, split on `,` as
      `split_terminator` does. */
  function Schedules(line: string): (r: seq<BusSched>)
    ensures var tokens := SplitTerminator(line, ',');
      forall s :: s in r ==> s.offset < |tokens| && ParseUnsigned(tokens[s.offset], U32_MAX) == Some(s.busId)
  {
    SchedulesFrom(SplitTerminator(line, ','), 0)
  }

  // ---------------------------------------------------------------------
  // Least common multiples.

  predicate CommonMultiple(c: int, a: nat, b: nat)
    requires a > 0 && b > 0
  {
    c % a == 0 && c % b == 0
  }

  lemma ProductIsCommon(a: nat, b: nat)
    requires a > 0 && b > 0
    ensures a * b >= 1 && CommonMultiple(a * b, a, b)
  {
    MulMono(a, 1, b);
    DivModUnique(a * b, b, 0, a);
    DivModUnique(a * b, a, 0, b);
  }

  /** The least common multiple of `a` and `b` that is at least `m`. */
  function LcmFrom(a: nat, b: nat, m: nat): (r: nat)
    requires a > 0 && b > 0 && 1 <= m <= a * b
    decreases a * b - m
    ensures m <= r && CommonMultiple(r, a, b)
    ensures forall c :: m <= c < r ==> !CommonMultiple(c, a, b)
  {
    ProductIsCommon(a, b);
    if CommonMultiple(m, a, b) then m else LcmFrom(a, b, m + 1)
  }

  /** `num::integer::lcm`: the least positive common multiple, and 0 when
      either argument is 0. */
  function Lcm(a: nat, b: nat): (r: nat)
    ensures a > 0 && b > 0 ==>
      r > 0 && CommonMultiple(r, a, b) && forall c :: 0 < c < r ==> !CommonMultiple(c, a, b)
    ensures a == 0 || b == 0 ==> r == 0
  {
    if a == 0 || b == 0 then 0 else ProductIsCommon(a, b); LcmFrom(a, b, 1)
  }

  /** Removing a multiple of a multiple of `a` keeps a multiple of `a`. */
  lemma MultipleSub(x: int, y: int, q: int, a: nat)
    requires a > 0 && x % a == 0 && y % a == 0
    ensures (x - q * y) % a == 0
  {
    var xa, ya := x / a, y / a;
    assert x == xa * a && y == ya * a;
    assert x - q * y == (xa - q * ya) * a by {
      assert q * y == (q * ya) * a;
    }
    DivModUnique(x - q * y, xa - q * ya, 0, a);
  }

  lemma DividesTrans(x: int, a: nat, b: nat)
    requires a > 0 && b > 0 && x % a == 0 && a % b == 0
    ensures x % b == 0
  {
    var xa, ab := x / a, a / b;
    assert x == xa * a && a == ab * b;
    assert x == (xa * ab) * b;
    DivModUnique(x, xa * ab, 0, b);
  }

  /** Every common multiple is a multiple of the least one. */
  lemma LcmDivides(a: nat, b: nat, x: int)
    requires a > 0 && b > 0 && CommonMultiple(x, a, b)
    ensures x % Lcm(a, b) == 0
  {
    var l := Lcm(a, b);
    var q, r := x / l, x % l;
    assert r == x - q * l;
    MultipleSub(x, l, q, a);
    MultipleSub(x, l, q, b);
    assert CommonMultiple(r, a, b);
  }

  lemma NotMultipleBelow(c: int, a: nat)
    requires 0 < c < a
    ensures c % a != 0
  {
    DivModUnique(c, 0, c, a);
  }

  lemma LcmOne(a: nat)
    requires a > 0
    ensures Lcm(1, a) == a
  {
    DivModUnique(a, 1, 0, a);
    DivModUnique(a, a, 0, 1);
    assert CommonMultiple(a, 1, a);
    if Lcm(1, a) < a {
      NotMultipleBelow(Lcm(1, a), a);
    }
  }

  lemma LcmSelf(a: nat)
    requires a > 0
    ensures Lcm(a, a) == a
  {
    DivModUnique(a, 1, 0, a);
    assert CommonMultiple(a, a, a);
    if Lcm(a, a) < a {
      NotMultipleBelow(Lcm(a, a), a);
    }
  }

  /** The least common multiple of the first `k` bus ids. */
  function LcmAll(scheds: seq<BusSched>, k: nat): nat
    requires k <= |scheds|
  {
    if k == 0 then 1 else Lcm(LcmAll(scheds, k - 1), scheds[k - 1].busId)
  }

  /** A positive `LcmAll` is a multiple of each of the ids it covers. */
  lemma {:induction false} LcmAllMultiple(scheds: seq<BusSched>, k: nat, j: nat)
    requires j < k <= |scheds| && LcmAll(scheds, k) > 0
    ensures scheds[j].busId > 0 && LcmAll(scheds, k) % scheds[j].busId == 0
  {
    var prev := LcmAll(scheds, k - 1);
    if j < k - 1 {
      LcmAllMultiple(scheds, k - 1, j);
      DividesTrans(LcmAll(scheds, k), prev, scheds[j].busId);
    }
  }

  // ---------------------------------------------------------------------
  // The sieve.

  /** Bus `s` leaves `s.offset` minutes after `t`. */
  predicate Aligned(t: int, s: BusSched) {
    s.busId > 0 && (t + s.offset) % s.busId == 0
  }

  predicate AlignedUpTo(t: int, scheds: seq<BusSched>, k: nat)
    requires k <= |scheds|
  {
    forall j :: 0 <= j < k ==> Aligned(t, scheds[j])
  }

  /** Aligned with the first `k` buses and with bus `k` too. */
  predicate AlignedThrough(t: int, scheds: seq<BusSched>, k: nat)
    requires k < |scheds|
  {
    AlignedUpTo(t, scheds, k) && Aligned(t, scheds[k])
  }

  /** `find_earliest_solution` from the `k`-th schedule on, with `t` and
      `step` the loop's variables; `fuel` bounds the number of times `t`
      is advanced, since the inner loop need not end. */
  function SieveFrom(scheds: seq<BusSched>, k: nat, t: nat, step: nat, fuel: nat): Outcome<nat>
    requires k <= |scheds|
    decreases |scheds| - k, fuel
  {
    if k == |scheds| then Done(t)
    else if scheds[k].busId == 0 then Panic
    else if (t + scheds[k].offset) % scheds[k].busId != 0 then
      if fuel == 0 then OutOfFuel else SieveFrom(scheds, k, t + step, step, fuel - 1)
    else SieveFrom(scheds, k + 1, t, Lcm(step, scheds[k].busId), fuel)
  }

  /** `find_earliest_solution` as written: `step` starts at the first id. */
  function EarliestAligned(scheds: seq<BusSched>, fuel: nat): Outcome<nat> {
    if |scheds| == 0 then Panic else SieveFrom(scheds, 0, 0, scheds[0].busId, fuel)
  }

  /** The sieve with `step` starting at 1, the neutral element of `lcm`. */
  function EarliestAlignedFixed(scheds: seq<BusSched>, fuel: nat): Outcome<nat> {
    SieveFrom(scheds, 0, 0, 1, fuel)
  }

  method FindEarliestSolution(scheds: seq<BusSched>, fuel: nat) returns (r: Outcome<nat>)
    ensures r == EarliestAligned(scheds, fuel)
  {
    if |scheds| == 0 {
      return Panic;
    }
    var t: nat := 0;
    var step: nat := scheds[0].busId;
    var left := fuel;
    for k := 0 to |scheds|
      invariant SieveFrom(scheds, k, t, step, left) == EarliestAligned(scheds, fuel)
    {
      var s := scheds[k];
      if s.busId == 0 {
        return Panic;
      }
      while (t + s.offset) % s.busId != 0
        invariant SieveFrom(scheds, k, t, step, left) == EarliestAligned(scheds, fuel)
        decreases left
      {
        if left == 0 {
          return OutOfFuel;
        }
        t, left := t + step, left - 1;
      }
      step := Lcm(step, s.busId);
    }
    return Done(t);
  }

  /** After the first `k` buses: `t` is the earliest timestamp aligned with
      all of them, and every aligned timestamp is `t` plus a multiple of
      `step`, the least common multiple of their ids. */
  ghost predicate Settled(scheds: seq<BusSched>, k: nat, t: nat, step: nat)
    requires k <= |scheds|
  {
    step > 0 && step == LcmAll(scheds, k) && AlignedUpTo(t, scheds, k) &&
    forall u: nat :: AlignedUpTo(u, scheds, k) ==> t <= u && (u - t) % step == 0
  }

  /** Inside the inner loop for bus `k`: no timestamp before `t` is aligned
      with the first `k + 1` buses, and those that are differ from `t` by a
      multiple of `step`. */
  ghost predicate Searching(scheds: seq<BusSched>, k: nat, t: nat, step: nat)
    requires k < |scheds|
  {
    step > 0 && step == LcmAll(scheds, k) && AlignedUpTo(t, scheds, k) &&
    forall u: nat :: AlignedThrough(u, scheds, k) ==> t <= u && (u - t) % step == 0
  }

  lemma {:induction false} FromSettled(scheds: seq<BusSched>, k: nat, t: nat, step: nat, fuel: nat)
    requires k <= |scheds| && Settled(scheds, k, t, step)
    ensures var r := SieveFrom(scheds, k, t, step, fuel);
      r.Done? ==> Settled(scheds, |scheds|, r.value, LcmAll(scheds, |scheds|))
    decreases |scheds| - k, fuel, 1
  {
    if k < |scheds| {
      SettledSearching(scheds, k, t, step);
      FromSearching(scheds, k, t, step, fuel);
    }
  }

  lemma {:induction false} FromSearching(scheds: seq<BusSched>, k: nat, t: nat, step: nat, fuel: nat)
    requires k < |scheds| && Searching(scheds, k, t, step)
    ensures var r := SieveFrom(scheds, k, t, step, fuel);
      r.Done? ==> Settled(scheds, |scheds|, r.value, LcmAll(scheds, |scheds|))
    decreases |scheds| - k, fuel, 0
  {
    var s := scheds[k];
    if s.busId == 0 {
    } else if (t + s.offset) % s.busId != 0 {
      if fuel > 0 {
        AdvanceSearching(scheds, k, t, step);
        FromSearching(scheds, k, t + step, step, fuel - 1);
      }
    } else {
      StageSettled(scheds, k, t, step);
      FromSettled(scheds, k + 1, t, Lcm(step, s.busId), fuel);
    }
  }

  lemma SettledSearching(scheds: seq<BusSched>, k: nat, t: nat, step: nat)
    requires k < |scheds| && Settled(scheds, k, t, step)
    ensures Searching(scheds, k, t, step)
  {
    forall u: nat | AlignedThrough(u, scheds, k)
      ensures t <= u && (u - t) % step == 0
    {
      assert AlignedUpTo(u, scheds, k);
    }
  }

  /** A timestamp that fails bus `k` can be advanced by `step`. */
  lemma AdvanceSearching(scheds: seq<BusSched>, k: nat, t: nat, step: nat)
    requires k < |scheds| && Searching(scheds, k, t, step)
    requires !Aligned(t, scheds[k])
    ensures Searching(scheds, k, t + step, step)
  {
    forall j | 0 <= j < k
      ensures Aligned(t + step, scheds[j])
    {
      LcmAllMultiple(scheds, k, j);
      MultipleSub(t + scheds[j].offset, step, -1, scheds[j].busId);
    }
    forall u: nat | AlignedThrough(u, scheds, k)
      ensures t + step <= u && (u - (t + step)) % step == 0
    {
      assert Aligned(u, scheds[k]);
      assert u != t;
      if u - t < step {
        NotMultipleBelow(u - t, step);
      }
      DivModUnique(step, 1, 0, step);
      MultipleSub(u - t, step, 1, step);
    }
  }

  /** A timestamp aligned with bus `k` settles the first `k + 1` buses. */
  lemma StageSettled(scheds: seq<BusSched>, k: nat, t: nat, step: nat)
    requires k < |scheds| && Searching(scheds, k, t, step)
    requires Aligned(t, scheds[k])
    ensures Settled(scheds, k + 1, t, Lcm(step, scheds[k].busId))
  {
    var s := scheds[k];
    var k1 := k + 1;
    forall u: nat | AlignedUpTo(u, scheds, k1)
      ensures t <= u && (u - t) % Lcm(step, s.busId) == 0
    {
      assert AlignedThrough(u, scheds, k);
      MultipleSub(u + s.offset, t + s.offset, 1, s.busId);
      LcmDivides(step, s.busId, u - t);
    }
  }

  /** The corrected sieve returns the earliest timestamp aligned with every
      bus; every other aligned timestamp is it plus a multiple of the least
      common multiple of all the ids. */
  lemma FixedIsEarliest(scheds: seq<BusSched>, fuel: nat)
    ensures var r := EarliestAlignedFixed(scheds, fuel);
      r.Done? ==> Settled(scheds, |scheds|, r.value, LcmAll(scheds, |scheds|))
  {
    forall u: nat | AlignedUpTo(u, scheds, 0)
      ensures 0 <= u && (u - 0) % 1 == 0
    {
      DivModUnique(u, u, 0, 1);
    }
    FromSettled(scheds, 0, 0, 1, fuel);
  }

  /** When the first bus is aligned at time 0 (its offset is a multiple of
      its id, as when the list starts with a bus), starting `step` at the
      first id changes nothing. */
  lemma AsWrittenAgrees(scheds: seq<BusSched>, fuel: nat)
    requires |scheds| > 0 && (scheds[0].busId == 0 || scheds[0].offset % scheds[0].busId == 0)
    ensures EarliestAligned(scheds, fuel) == EarliestAlignedFixed(scheds, fuel)
  {
    var a := scheds[0].busId;
    if a > 0 {
      LcmSelf(a);
      LcmOne(a);
    }
  }

  /** With the first bus not aligned at time 0, the loop as written adds
      multiples of that bus's own id to `t` and never aligns it. */
  lemma {:induction false} StallsFrom(scheds: seq<BusSched>, t: nat, fuel: nat)
    requires |scheds| > 0 && scheds[0].busId > 0 && scheds[0].offset % scheds[0].busId != 0
    requires t % scheds[0].busId == 0
    ensures SieveFrom(scheds, 0, t, scheds[0].busId, fuel) == OutOfFuel
    decreases fuel
  {
    var a, o := scheds[0].busId, scheds[0].offset;
    DivModUnique(t + o, t / a + o / a, o % a, a);
    if fuel > 0 {
      DivModUnique(t + a, t / a + 1, 0, a);
      StallsFrom(scheds, t + a, fuel - 1);
    }
  }

  lemma AsWrittenStalls(scheds: seq<BusSched>, fuel: nat)
    requires |scheds| > 0 && scheds[0].busId > 0 && scheds[0].offset % scheds[0].busId != 0
    ensures EarliestAligned(scheds, fuel) == OutOfFuel
  {
    StallsFrom(scheds, 0, fuel);
  }

  /** What `find_earliest_solution` returns, when it returns, is the
      earliest aligned timestamp. */
  lemma AsWrittenIsEarliest(scheds: seq<BusSched>, fuel: nat)
    ensures var r := EarliestAligned(scheds, fuel);
      r.Done? ==> Settled(scheds, |scheds|, r.value, LcmAll(scheds, |scheds|))
  {
    if |scheds| > 0 {
      var a := scheds[0].busId;
      if a > 0 && scheds[0].offset % a != 0 {
        AsWrittenStalls(scheds, fuel);
      } else {
        AsWrittenAgrees(scheds, fuel);
        FixedIsEarliest(scheds, fuel);
      }
    }
  }

  /** A line whose first entry is `x` gives a first bus at a non-zero
      offset. */
  lemma LeadingSkipLine()
    ensures Schedules("x,7") == [BusSched(7, 1)]
  {
    var line := "x,7";
    assert line[1..] == ",7" && line[1..][1..] == "7" && "7"[1..] == [];
    assert Split([], ',') == [""];
    assert Split("7", ',') == [['7'] + ""] + [""][1..];
    assert Split(",7", ',') == [""] + Split("7", ',');
    var rest := Split(",7", ',');
    assert |rest| == 2 && rest[0] == "" && rest[1] == "7";
    var all := Split(line, ',');
    assert all == [['x'] + rest[0]] + rest[1..];
    assert |all| == 2 && all[0] == "x" && all[1] == "7";
    var tokens := SplitTerminator(line, ',');
    assert tokens == all;
    assert DigitsValue("7") == 7;
    assert ParseUnsigned(tokens[0], U32_MAX) == None;
    assert ParseUnsigned(tokens[1], U32_MAX) == Some(7);
    assert SchedulesFrom(tokens, 1) == [BusSched(7, 1)];
  }

  /** For bus 7 at offset 1 the loop as written never ends, while 6 is
      the earliest aligned timestamp. */
  lemma LeadingSkipStalls(fuel: nat)
    ensures EarliestAligned([BusSched(7, 1)], fuel) == OutOfFuel
    ensures EarliestAlignedFixed([BusSched(7, 1)], 6) == Done(6)
  {
    AsWrittenStalls([BusSched(7, 1)], fuel);
  }
}
