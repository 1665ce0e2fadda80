/** Day 16: ticket translation.  Each category names a few inclusive
    ranges; a ticket value is valid when some range of some category holds
    it.  Part one sums the invalid values of all tickets; part two keeps the
    valid tickets and narrows, per position, the categories that can sit
    there: first by striking every category one of the position's values
    falls outside, then by repeatedly removing a name that is the only one
    left at some position from all other positions. */
module TicketTranslation {
  import opened Outcomes
  import opened Strings
  import opened Decimal

  /** An inclusive range `lo-hi`. */
  datatype Range = Range(lo: nat, hi: nat)

  /** A category line: its name and its ranges. */
  datatype Category = Category(name: string, ranges: seq<Range>)

  predicate InRange(x: nat, r: Range) {
    r.lo <= x <= r.hi
  }

  // ---------------------------------------------------------------------
  // Validity.

  /** Some range of `ranges` holds `x`. */
  function FitsAny(x: nat, ranges: seq<Range>): (r: bool)
    ensures r <==> exists j :: 0 <= j < |ranges| && InRange(x, ranges[j])
  {
    if ranges == [] then false
    else
      var rest := FitsAny(x, ranges[1..]);
      assert forall j :: 0 < j < |ranges| ==> ranges[j] == ranges[1..][j - 1];
      InRange(x, ranges[0]) || rest
  }

  /** `value_is_valid`: some range of some category holds `x`. */
  function ValueIsValid(x: nat, cats: seq<Category>): (r: bool)
    ensures r <==> exists i :: 0 <= i < |cats| && FitsAny(x, cats[i].ranges)
  {
    if cats == [] then false
    else
      var rest := ValueIsValid(x, cats[1..]);
      assert forall i :: 0 < i < |cats| ==> cats[i] == cats[1..][i - 1];
      FitsAny(x, cats[0].ranges) || rest
  }

  /** `ticket_is_valid`: every value of the ticket is valid; so is the
      empty ticket. */
  function TicketIsValid(t: seq<nat>, cats: seq<Category>): (r: bool)
    ensures r <==> forall k :: 0 <= k < |t| ==> ValueIsValid(t[k], cats)
  {
    if t == [] then true
    else
      var rest := TicketIsValid(t[1..], cats);
      assert forall k :: 0 < k < |t| ==> t[k] == t[1..][k - 1];
      ValueIsValid(t[0], cats) && rest
  }

  // ---------------------------------------------------------------------
  // Part one: the error rate.

  /** The sum of the invalid values of `t`. */
  function InvalidSum(t: seq<nat>, cats: seq<Category>): nat {
    if t == [] then 0
    else InvalidSum(t[..|t| - 1], cats) + (if ValueIsValid(t[|t| - 1], cats) then 0 else t[|t| - 1])
  }

  /** The sum of the invalid values of all tickets. */
  function ErrorRate(tickets: seq<seq<nat>>, cats: seq<Category>): nat {
    if tickets == [] then 0
    else ErrorRate(tickets[..|tickets| - 1], cats) + InvalidSum(tickets[|tickets| - 1], cats)
  }

  /** `calc_puzzle_error_rate`. */
  method CalcPuzzleErrorRate(tickets: seq<seq<nat>>, cats: seq<Category>) returns (accum: nat)
    ensures accum == ErrorRate(tickets, cats)
  {
    accum := 0;
    for a := 0 to |tickets|
      invariant accum == ErrorRate(tickets[..a], cats)
    {
      var ticket := tickets[a];
      ghost var before := accum;
      for k := 0 to |ticket|
        invariant accum == before + InvalidSum(ticket[..k], cats)
      {
        assert ticket[..k + 1][..k] == ticket[..k];
        if ValueIsValid(ticket[k], cats) {
          continue;
        }
        accum := accum + ticket[k];
      }
      assert ticket[..|ticket|] == ticket;
      assert tickets[..a + 1][..a] == tickets[..a];
    }
    assert tickets[..|tickets|] == tickets;
  }

  /** A valid ticket adds nothing to the error rate. */
  lemma {:induction false} ValidAddsNothing(t: seq<nat>, cats: seq<Category>)
    requires TicketIsValid(t, cats)
    ensures InvalidSum(t, cats) == 0
  {
    if t != [] {
      ValidAddsNothing(t[..|t| - 1], cats);
    }
  }

  /** A ticket that adds to the error rate is invalid. */
  lemma {:induction false} ErrorMeansInvalid(tickets: seq<seq<nat>>, cats: seq<Category>)
    requires ErrorRate(tickets, cats) > 0
    ensures exists a :: 0 <= a < |tickets| && !TicketIsValid(tickets[a], cats)
  {
    var n := |tickets| - 1;
    if InvalidSum(tickets[n], cats) > 0 {
      if TicketIsValid(tickets[n], cats) {
        ValidAddsNothing(tickets[n], cats);
      }
    } else {
      ErrorMeansInvalid(tickets[..n], cats);
      var a :| 0 <= a < n && !TicketIsValid(tickets[..n][a], cats);
      assert tickets[a] == tickets[..n][a];
    }
  }

  /** When all tickets are valid the error rate is 0. */
  lemma {:induction false} AllValidNoError(tickets: seq<seq<nat>>, cats: seq<Category>)
    requires forall a :: 0 <= a < |tickets| ==> TicketIsValid(tickets[a], cats)
    ensures ErrorRate(tickets, cats) == 0
  {
    if tickets != [] {
      var n := |tickets| - 1;
      ValidAddsNothing(tickets[n], cats);
      AllValidNoError(tickets[..n], cats);
    }
  }

  /** The converse fails: an invalid 0 adds nothing to the error rate. */
  lemma ZeroSlipsThrough(t: seq<nat>, cats: seq<Category>)
    requires t == [0] && cats == [Category("class", [Range(1, 3)])]
    ensures !TicketIsValid(t, cats) && ErrorRate([t], cats) == 0
  {
    assert !FitsAny(0, cats[0].ranges);
    assert !ValueIsValid(0, cats);
    var ts := [t];
    assert ts[..0] == [];
    assert t[..0] == [];
    assert InvalidSum(t, cats) == 0;
  }

  // ---------------------------------------------------------------------
  // The numbers of a ticket line.

  /** Each piece parsed as a `u32`; the first that does not parse panics. */
  function ParseAll(pieces: seq<string>): (r: Outcome<seq<nat>>)
    ensures r.Done? || r.Panic?
    ensures r.Panic? <==> exists i :: 0 <= i < |pieces| && ParseUnsigned(pieces[i], U32_MAX).None?
    ensures r.Done? ==> (|r.value| == |pieces| &&
      forall i :: 0 <= i < |pieces| ==> ParseUnsigned(pieces[i], U32_MAX) == Some(r.value[i]))
  {
    if pieces == [] then Done([])
    else
      assert forall i :: 0 < i < |pieces| ==> pieces[i] == pieces[1..][i - 1];
      match ParseUnsigned(pieces[0], U32_MAX)
      case None => Panic
      case Some(v) =>
        match ParseAll(pieces[1..])
        case Done(vs) => Done([v] + vs)
        case _ => Panic
  }

  /** `build_numeric_series`: the line trimmed, split on `,`, each piece
      parsed. */
  function BuildNumericSeries(ln: string): Outcome<seq<nat>> {
    ParseAll(Split(Trim(ln), ','))
  }

  /** The numbers shown in decimal, separated by commas. */
  function ShowAll(nums: seq<nat>): (r: seq<string>)
    ensures |r| == |nums| && forall i :: 0 <= i < |nums| ==> r[i] == ShowNat(nums[i])
  {
    if nums == [] then [] else [ShowNat(nums[0])] + ShowAll(nums[1..])
  }

  /** Text that neither starts nor ends with white space trims to itself. */
  lemma TrimKeeps(s: string)
    requires s != [] && !IsWhiteSpace(s[0]) && !IsWhiteSpace(s[|s| - 1])
    ensures Trim(s) == s
  {
  }

  /** A joined list of digit strings starts and ends with a digit. */
  lemma {:induction false} JoinedDigitsEnds(pieces: seq<string>)
    requires |pieces| >= 1
    requires forall i :: 0 <= i < |pieces| ==> pieces[i] != [] && AllDigits(pieces[i])
    ensures var j := Join(pieces, ','); j != [] && IsAsciiDigit(j[0]) && IsAsciiDigit(j[|j| - 1])
    decreases |pieces|
  {
    if |pieces| > 1 {
      JoinedDigitsEnds(pieces[1..]);
    }
  }

  /** Decimal pieces parse back to their values. */
  lemma ParseAllShown(nums: seq<nat>)
    requires forall i :: 0 <= i < |nums| ==> nums[i] <= U32_MAX
    ensures ParseAll(ShowAll(nums)) == Done(nums)
  {
    var p := ShowAll(nums);
    forall i | 0 <= i < |p| ensures ParseUnsigned(p[i], U32_MAX) == Some(nums[i]) {
      ParseShow(nums[i], U32_MAX);
    }
    var r := ParseAll(p);
    assert !r.Panic?;
    assert |r.value| == |nums|;
    forall i | 0 <= i < |nums| ensures r.value[i] == nums[i] {
      assert ParseUnsigned(p[i], U32_MAX) == Some(r.value[i]);
    }
    assert r.value == nums;
  }

  /** Decimal pieces are non-empty digit strings. */
  lemma ShownDigits(nums: seq<nat>)
    ensures forall i :: 0 <= i < |nums| ==>
      ShowAll(nums)[i] != [] && AllDigits(ShowAll(nums)[i]) && ',' !in ShowAll(nums)[i]
  {
  }

  /** A decimal digit is not white space. */
  lemma DigitNotSpace(c: char)
    requires IsAsciiDigit(c)
    ensures !IsWhiteSpace(c)
  {
  }

  /** Reading back a line of `u32` values written with commas gives the
      values. */
  lemma NumericSeriesRoundTrip(nums: seq<nat>)
    requires nums != [] && forall i :: 0 <= i < |nums| ==> nums[i] <= U32_MAX
    ensures BuildNumericSeries(Join(ShowAll(nums), ',')) == Done(nums)
  {
    var pieces := ShowAll(nums);
    var j := Join(pieces, ',');
    JoinedDigitsEnds(pieces);
    var first, last := j[0], j[|j| - 1];
    DigitNotSpace(first);
    DigitNotSpace(last);
    TrimKeeps(j);
    ShownDigits(nums);
    SplitJoin(pieces, ',');
    assert BuildNumericSeries(j) == ParseAll(pieces);
    ParseAllShown(nums);
  }

  /** The line `7,1,14` gives 7, 1 and 14. */
  lemma NumericSeriesExample(ln: string)
    requires ln == "7,1,14"
    ensures BuildNumericSeries(ln) == Done([7, 1, 14])
  {
    var nums: seq<nat> := [7, 1, 14];
    assert ShowNat(7) == "7" && ShowNat(1) == "1" && ShowNat(14) == "14";
    assert ShowAll(nums) == ["7", "1", "14"];
    assert Join(["14"], ',') == "14";
    assert Join(["1", "14"], ',') == "1,14";
    assert Join(ShowAll(nums), ',') == ln;
    NumericSeriesRoundTrip(nums);
  }

  // ---------------------------------------------------------------------
  // Part two, first phase: striking categories a value falls outside.

  /** The valid tickets, in order. */
  function ValidTickets(tickets: seq<seq<nat>>, cats: seq<Category>): (r: seq<seq<nat>>)
    ensures forall t :: t in r <==> t in tickets && TicketIsValid(t, cats)
  {
    if tickets == [] then []
    else (if TicketIsValid(tickets[0], cats) then [tickets[0]] else []) + ValidTickets(tickets[1..], cats)
  }

  /** The category names, in order. */
  function Names(cats: seq<Category>): (r: seq<string>)
    ensures |r| == |cats| && forall i :: 0 <= i < |cats| ==> r[i] == cats[i].name
  {
    if cats == [] then [] else [cats[0].name] + Names(cats[1..])
  }

  /** Every position starts with every name. */
  function Initial(cats: seq<Category>): (r: seq<seq<string>>)
    ensures |r| == |cats| && forall i :: 0 <= i < |r| ==> r[i] == Names(cats)
  {
    seq(|cats|, _ => Names(cats))
  }

  /** The list without `n`, in order. */
  function Remove(l: seq<string>, n: string): (r: seq<string>)
    ensures |r| <= |l|
    ensures |r| == |l| ==> r == l
  {
    if l == [] then []
    else (if l[0] == n then [] else [l[0]]) + Remove(l[1..], n)
  }

  /** Removing `n` keeps every other name and only those. */
  lemma {:induction false} RemoveMembers(l: seq<string>, n: string)
    ensures forall m :: m in Remove(l, n) <==> m in l && m != n
    decreases |l|
  {
    if l != [] {
      RemoveMembers(l[1..], n);
      assert l == [l[0]] + l[1..];
    }
  }

  /** One category checked against the value `x` at position `idx`: when
      none of its ranges holds `x` its name is struck there, and a position
      past the table panics. */
  function StrikeOne(p: seq<seq<string>>, idx: nat, x: nat, c: Category): Outcome<seq<seq<string>>> {
    if FitsAny(x, c.ranges) then Done(p)
    else if idx < |p| then Done(p[idx := Remove(p[idx], c.name)])
    else Panic
  }

  /** The categories `cs` checked in order against the value at `idx`. */
  function StrikeCats(p: seq<seq<string>>, idx: nat, x: nat, cs: seq<Category>): Outcome<seq<seq<string>>> {
    if cs == [] then Done(p)
    else
      match StrikeCats(p, idx, x, cs[..|cs| - 1])
      case Done(q) => StrikeOne(q, idx, x, cs[|cs| - 1])
      case _ => Panic
  }

  /** The first `k` values of ticket `t` checked in order. */
  function StrikeValues(p: seq<seq<string>>, t: seq<nat>, k: nat, cats: seq<Category>): Outcome<seq<seq<string>>>
    requires k <= |t|
  {
    if k == 0 then Done(p)
    else
      match StrikeValues(p, t, k - 1, cats)
      case Done(q) => StrikeCats(q, k - 1, t[k - 1], cats)
      case _ => Panic
  }

  /** The tickets `ts` checked in order. */
  function StrikeTickets(p: seq<seq<string>>, ts: seq<seq<nat>>, cats: seq<Category>): Outcome<seq<seq<string>>> {
    if ts == [] then Done(p)
    else
      match StrikeTickets(p, ts[..|ts| - 1], cats)
      case Done(q) => StrikeValues(q, ts[|ts| - 1], |ts[|ts| - 1]|, cats)
      case _ => Panic
  }

  /** Once a check panics, the later ones do not matter. */
  lemma {:induction false} StrikeCatsPanic(p: seq<seq<string>>, idx: nat, x: nat, cs: seq<Category>, j: nat)
    requires j <= |cs| && StrikeCats(p, idx, x, cs[..j]).Panic?
    ensures StrikeCats(p, idx, x, cs).Panic?
    decreases |cs| - j
  {
    if j < |cs| {
      assert cs[..j + 1][..j] == cs[..j];
      StrikeCatsPanic(p, idx, x, cs, j + 1);
    } else {
      assert cs[..j] == cs;
    }
  }

  lemma {:induction false} StrikeValuesPanic(p: seq<seq<string>>, t: seq<nat>, k: nat, cats: seq<Category>)
    requires k <= |t| && StrikeValues(p, t, k, cats).Panic?
    ensures StrikeValues(p, t, |t|, cats).Panic?
    decreases |t| - k
  {
    if k < |t| {
      StrikeValuesPanic(p, t, k + 1, cats);
    }
  }

  lemma {:induction false} StrikeTicketsPanic(p: seq<seq<string>>, ts: seq<seq<nat>>, cats: seq<Category>, a: nat)
    requires a <= |ts| && StrikeTickets(p, ts[..a], cats).Panic?
    ensures StrikeTickets(p, ts, cats).Panic?
    decreases |ts| - a
  {
    if a < |ts| {
      assert ts[..a + 1][..a] == ts[..a];
      StrikeTicketsPanic(p, ts, cats, a + 1);
    } else {
      assert ts[..a] == ts;
    }
  }

  /** The innermost loop of the first phase: the categories checked in
      order against the value `x` at position `idx`. */
  method StrikeValue(possible0: seq<seq<string>>, idx: nat, x: nat, cats: seq<Category>)
    returns (r: Outcome<seq<seq<string>>>)
    ensures r == StrikeCats(possible0, idx, x, cats)
  {
    var possible := possible0;
    for j := 0 to |cats|
      invariant StrikeCats(possible0, idx, x, cats[..j]) == Done(possible)
    {
      assert cats[..j + 1][..j] == cats[..j];
      if FitsAny(x, cats[j].ranges) {
        continue;
      }
      if idx >= |possible| {
        StrikeCatsPanic(possible0, idx, x, cats, j + 1);
        return Panic;
      }
      possible := possible[idx := Remove(possible[idx], cats[j].name)];
    }
    assert cats[..|cats|] == cats;
    return Done(possible);
  }

  /** The first loop nest of `solve_for_field_positions`: for every valid
      ticket, every value, every category the value falls outside, the
      category's name is struck at the value's position; a position with no
      row in the table panics. */
  method Eliminate(cats: seq<Category>, valid: seq<seq<nat>>) returns (r: Outcome<seq<seq<string>>>)
    ensures r == StrikeTickets(Initial(cats), valid, cats)
  {
    var catNames := Names(cats);
    var possible: seq<seq<string>> := seq(|cats|, _ => catNames);
    assert possible == Initial(cats);
    for a := 0 to |valid|
      invariant StrikeTickets(Initial(cats), valid[..a], cats) == Done(possible)
    {
      var ticket := valid[a];
      assert valid[..a + 1][..a] == valid[..a];
      ghost var p0 := possible;
      for idx := 0 to |ticket|
        invariant StrikeValues(p0, ticket, idx, cats) == Done(possible)
      {
        var next := StrikeValue(possible, idx, ticket[idx], cats);
        if next.Panic? {
          StrikeValuesPanic(p0, ticket, idx + 1, cats);
          StrikeTicketsPanic(Initial(cats), valid, cats, a + 1);
          return Panic;
        }
        possible := next.value;
      }
    }
    assert valid[..|valid|] == valid;
    return Done(possible);
  }

  /** Some category of `cs` named `n` has no range holding `x`. */
  predicate FailsFor(x: nat, cs: seq<Category>, n: string) {
    exists j :: 0 <= j < |cs| && cs[j].name == n && !FitsAny(x, cs[j].ranges)
  }

  /** Some category of `cs` has no range holding `x`. */
  predicate FailsSome(x: nat, cs: seq<Category>) {
    exists j :: 0 <= j < |cs| && !FitsAny(x, cs[j].ranges)
  }

  /** Checking one value panics exactly when its position is past the table
      and some category fails it; otherwise only its position changes, and
      loses exactly the names of the categories that fail the value. */
  lemma {:induction false} StrikeCatsMeaning(p: seq<seq<string>>, idx: nat, x: nat, cs: seq<Category>)
    ensures var r := StrikeCats(p, idx, x, cs);
      r != OutOfFuel && (r.Panic? <==> idx >= |p| && FailsSome(x, cs))
    ensures var r := StrikeCats(p, idx, x, cs);
      r.Done? ==> (|r.value| == |p| && forall i :: 0 <= i < |p| && i != idx ==> r.value[i] == p[i])
    ensures var r := StrikeCats(p, idx, x, cs);
      r.Done? && idx < |p| ==> forall n :: n in r.value[idx] <==> n in p[idx] && !FailsFor(x, cs, n)
  {
    if cs != [] {
      var m := |cs| - 1;
      var init, c := cs[..m], cs[m];
      StrikeCatsMeaning(p, idx, x, init);
      var q := StrikeCats(p, idx, x, init);
      if q.Done? && idx < |p| {
        RemoveMembers(q.value[idx], c.name);
      }
      assert forall j :: 0 <= j < m ==> init[j] == cs[j];
      assert FailsSome(x, cs) <==> FailsSome(x, init) || !FitsAny(x, c.ranges);
      forall n
        ensures FailsFor(x, cs, n) <==> FailsFor(x, init, n) || (c.name == n && !FitsAny(x, c.ranges))
      {
      }
    }
  }

  /** Checking the first `k` values of a ticket panics exactly when one of
      them lies past the table and some category fails it; otherwise each
      position loses exactly the names that fail its value. */
  lemma {:induction false} StrikeValuesMeaning(p: seq<seq<string>>, t: seq<nat>, k: nat, cats: seq<Category>)
    requires k <= |t|
    ensures var r := StrikeValues(p, t, k, cats);
      r != OutOfFuel && (r.Panic? <==> exists i :: |p| <= i < k && FailsSome(t[i], cats))
    ensures var r := StrikeValues(p, t, k, cats);
      r.Done? ==> (|r.value| == |p| &&
        forall i, n :: 0 <= i < |p| ==>
          (n in r.value[i] <==> n in p[i] && !(i < k && FailsFor(t[i], cats, n))))
  {
    if k > 0 {
      StrikeValuesMeaning(p, t, k - 1, cats);
      var prev := StrikeValues(p, t, k - 1, cats);
      if prev.Done? {
        StrikeCatsMeaning(prev.value, k - 1, t[k - 1], cats);
      }
    }
  }

  /** Some valid ticket has a value at position `i` that a category named
      `n` fails. */
  predicate StruckAt(ts: seq<seq<nat>>, cats: seq<Category>, i: nat, n: string) {
    exists a :: 0 <= a < |ts| && i < |ts[a]| && FailsFor(ts[a][i], cats, n)
  }

  /** Checking all tickets panics exactly when one of them has a value past
      the table that some category fails; otherwise each position loses
      exactly the names some ticket's value there fails. */
  lemma {:induction false} StrikeTicketsMeaning(p: seq<seq<string>>, ts: seq<seq<nat>>, cats: seq<Category>)
    ensures var r := StrikeTickets(p, ts, cats);
      r != OutOfFuel &&
      (r.Panic? <==> exists a, i :: 0 <= a < |ts| && |p| <= i < |ts[a]| && FailsSome(ts[a][i], cats))
    ensures var r := StrikeTickets(p, ts, cats);
      r.Done? ==> (|r.value| == |p| &&
        forall i, n :: 0 <= i < |p| ==> (n in r.value[i] <==> n in p[i] && !StruckAt(ts, cats, i, n)))
  {
    if ts != [] {
      var m := |ts| - 1;
      var init, t := ts[..m], ts[m];
      StrikeTicketsMeaning(p, init, cats);
      assert forall a :: 0 <= a < m ==> init[a] == ts[a];
      var prev := StrikeTickets(p, init, cats);
      if prev.Done? {
        StrikeValuesMeaning(prev.value, t, |t|, cats);
        forall i, n | 0 <= i < |p|
          ensures StruckAt(ts, cats, i, n) <==> StruckAt(init, cats, i, n) || (i < |t| && FailsFor(t[i], cats, n))
        {
        }
      }
    }
  }

  // ---------------------------------------------------------------------
  // Part two, second phase: a name left alone at one position is removed
  // from all others, round after round.

  /** The number of candidates over all positions. */
  function Total(p: seq<seq<string>>): nat {
    if p == [] then 0 else Total(p[..|p| - 1]) + |p[|p| - 1]|
  }

  /** Replacing one position's list changes the total by the difference
      in length. */
  lemma {:induction false} TotalUpdate(p: seq<seq<string>>, i: nat, l: seq<string>)
    requires i < |p|
    ensures Total(p[i := l]) + |p[i]| == Total(p) + |l|
  {
    var m := |p| - 1;
    assert p[i := l][..m] == if i < m then p[..m][i := l] else p[..m];
    if i < m {
      TotalUpdate(p[..m], i, l);
    }
  }

  /** Lists no longer than before give a total no larger, and the same
      total only when every length is kept. */
  lemma {:induction false} TotalShrinks(p: seq<seq<string>>, q: seq<seq<string>>)
    requires |q| == |p| && forall i :: 0 <= i < |p| ==> |q[i]| <= |p[i]|
    ensures Total(q) <= Total(p)
    ensures Total(q) == Total(p) ==> forall i :: 0 <= i < |p| ==> |q[i]| == |p[i]|
  {
    if p != [] {
      var m := |p| - 1;
      TotalShrinks(p[..m], q[..m]);
    }
  }

  /** The positions holding a single name, with that name, in order. */
  function Uniques(p: seq<seq<string>>): (r: seq<(nat, string)>)
    ensures forall e :: e in r ==> e.0 < |p| && |p[e.0]| == 1 && e.1 == p[e.0][0]
    ensures forall u :: 0 <= u < |p| && |p[u]| == 1 ==> (u, p[u][0]) in r
  {
    if p == [] then []
    else
      var m := |p| - 1;
      assert forall u :: 0 <= u < m ==> p[..m][u] == p[u];
      Uniques(p[..m]) + (if |p[m]| == 1 then [(m, p[m][0])] else [])
  }

  /** The name `n` removed from the first `k` positions other than `u`. */
  function PruneUpTo(p: seq<seq<string>>, u: nat, n: string, k: nat): (r: seq<seq<string>>)
    requires k <= |p|
    ensures |r| == |p|
  {
    if k == 0 then p
    else
      var q := PruneUpTo(p, u, n, k - 1);
      if k - 1 != u then q[k - 1 := Remove(q[k - 1], n)] else q
  }

  /** Each of the first `k` positions other than `u` has lost `n`; the
      others are as they were. */
  lemma {:induction false} PruneUpToAt(p: seq<seq<string>>, u: nat, n: string, k: nat)
    requires k <= |p|
    ensures var r := PruneUpTo(p, u, n, k);
      forall i :: 0 <= i < |p| ==> r[i] == if i < k && i != u then Remove(p[i], n) else p[i]
    decreases k
  {
    if k > 0 {
      PruneUpToAt(p, u, n, k - 1);
    }
  }

  /** Removing a name only shrinks, and changes nothing when it keeps the
      total. */
  lemma PruneShrinks(p: seq<seq<string>>, u: nat, n: string)
    ensures var r := PruneUpTo(p, u, n, |p|);
      Total(r) <= Total(p) && (Total(r) == Total(p) ==> r == p)
  {
    var r := PruneUpTo(p, u, n, |p|);
    PruneUpToAt(p, u, n, |p|);
    TotalShrinks(p, r);
  }

  /** The unique names `us` removed in order, each from every other
      position. */
  function PruneAll(p: seq<seq<string>>, us: seq<(nat, string)>): (r: seq<seq<string>>)
    ensures |r| == |p|
    ensures Total(r) <= Total(p) && (Total(r) == Total(p) ==> r == p)
  {
    if us == [] then p
    else
      var q := PruneAll(p, us[..|us| - 1]);
      var (u, n) := us[|us| - 1];
      PruneShrinks(q, u, n);
      PruneUpTo(q, u, n, |q|)
  }

  /** Removing unique names never adds a name anywhere. */
  lemma {:induction false} PruneAllKeeps(p: seq<seq<string>>, us: seq<(nat, string)>)
    ensures forall i, m :: 0 <= i < |p| && m in PruneAll(p, us)[i] ==> m in p[i]
    decreases |us|
  {
    if us != [] {
      var k := |us| - 1;
      var q := PruneAll(p, us[..k]);
      PruneAllKeeps(p, us[..k]);
      PruneAllLast(p, us);
      var r := PruneAll(p, us);
      PruneUpToAt(q, us[k].0, us[k].1, |q|);
      forall i | 0 <= i < |p| ensures forall m :: m in r[i] ==> m in q[i] {
        RemoveMembers(q[i], us[k].1);
      }
    }
  }

  /** One round of the `while updates > 0` loop: the names unique at the
      start of the round removed from all other positions. */
  function Round(p: seq<seq<string>>): (r: seq<seq<string>>)
    ensures |r| == |p|
    ensures Total(r) <= Total(p) && (Total(r) == Total(p) ==> r == p)
  {
    PruneAll(p, Uniques(p))
  }

  /** Rounds until one changes nothing. */
  function Settled(p: seq<seq<string>>): seq<seq<string>>
    decreases Total(p)
  {
    var q := Round(p);
    if q == p then p else Settled(q)
  }

  /** The inner `for` loop of one round: `n` removed from every position
      other than `u`, counting the positions that shrank. */
  method PruneOthers(q0: seq<seq<string>>, u: nat, n: string) returns (p: seq<seq<string>>, shrunk: nat)
    ensures p == PruneUpTo(q0, u, n, |q0|)
    ensures shrunk == 0 ==> p == q0
    ensures Total(p) + shrunk <= Total(q0)
  {
    p, shrunk := q0, 0;
    for idx := 0 to |p|
      invariant |p| == |q0| && p == PruneUpTo(q0, u, n, idx)
      invariant shrunk == 0 ==> p == q0
      invariant Total(p) + shrunk <= Total(q0)
    {
      PruneUpToStep(q0, u, n, idx);
      if idx != u {
        var pruned := Remove(p[idx], n);
        if |pruned| < |p[idx]| {
          TotalUpdate(p, idx, pruned);
          p := p[idx := pruned];
          shrunk := shrunk + 1;
        } else {
          assert p[idx := pruned] == p;
        }
      }
    }
  }

  /** Position `k` is the one the `k + 1`-th step prunes. */
  lemma PruneUpToStep(p: seq<seq<string>>, u: nat, n: string, k: nat)
    requires k < |p|
    ensures var q := PruneUpTo(p, u, n, k);
      PruneUpTo(p, u, n, k + 1) == if k != u then q[k := Remove(q[k], n)] else q
  {
  }

  /** One round: each unique name removed from every other position,
      counting the positions that shrank. */
  method RunRound(p0: seq<seq<string>>) returns (p: seq<seq<string>>, updates: nat)
    ensures p == Round(p0)
    ensures updates == 0 ==> p == p0
    ensures updates > 0 ==> Total(p) < Total(p0)
  {
    var uniq := Uniques(p0);
    p, updates := p0, 0;
    for a := 0 to |uniq|
      invariant p == PruneAll(p0, uniq[..a])
      invariant updates == 0 ==> p == p0
      invariant Total(p) + updates <= Total(p0)
    {
      var prev := p;
      var shrunk;
      p, shrunk := PruneOthers(prev, uniq[a].0, uniq[a].1);
      PruneAllNext(p0, uniq, a);
      updates := updates + shrunk;
    }
    assert uniq[..|uniq|] == uniq;
  }

  /** The `while updates > 0` loop of `solve_for_field_positions`. */
  method Settle(p0: seq<seq<string>>) returns (p: seq<seq<string>>)
    ensures p == Settled(p0)
  {
    p := p0;
    var updates: nat := 1;
    while updates > 0
      invariant updates > 0 ==> Settled(p) == Settled(p0)
      invariant updates == 0 ==> p == Settled(p0)
      decreases Total(p) + (if updates > 0 then 1 else 0)
    {
      p, updates := RunRound(p);
    }
  }

  /** Settling keeps the number of positions and only removes names. */
  lemma SettledShrinks(p: seq<seq<string>>)
    ensures |Settled(p)| == |p|
    ensures forall i, m :: 0 <= i < |p| && m in Settled(p)[i] ==> m in p[i]
    decreases Total(p)
  {
    var q := Round(p);
    PruneAllKeeps(p, Uniques(p));
    if q != p {
      SettledShrinks(q);
    }
  }

  /** A further round changes nothing. */
  lemma SettledIsStable(p: seq<seq<string>>)
    ensures Round(Settled(p)) == Settled(p)
    decreases Total(p)
  {
    var q := Round(p);
    if q != p {
      SettledIsStable(q);
    }
  }

  /** The last unique name of `us` is removed after all the others. */
  lemma PruneAllLast(p: seq<seq<string>>, us: seq<(nat, string)>)
    requires us != []
    ensures var m := |us| - 1;
      PruneAll(p, us) == PruneUpTo(PruneAll(p, us[..m]), us[m].0, us[m].1, |p|)
  {
  }

  /** The first `a + 1` unique names removed: the first `a`, then the
      next one. */
  lemma PruneAllNext(p: seq<seq<string>>, us: seq<(nat, string)>, a: nat)
    requires a < |us|
    ensures PruneAll(p, us[..a + 1]) == PruneUpTo(PruneAll(p, us[..a]), us[a].0, us[a].1, |p|)
  {
    PruneAllLast(p, us[..a + 1]);
    assert us[..a + 1][..a] == us[..a] && us[..a + 1][a] == us[a];
  }

  /** When a round keeps the total, so does every earlier part of it. */
  lemma {:induction false} PruneAllSqueeze(p: seq<seq<string>>, us: seq<(nat, string)>, a: nat)
    requires a <= |us| && Total(PruneAll(p, us)) == Total(p)
    ensures PruneAll(p, us[..a]) == p
    decreases |us|
  {
    if a < |us| {
      var m := |us| - 1;
      var q := PruneAll(p, us[..m]);
      PruneAllLast(p, us);
      PruneShrinks(q, us[m].0, us[m].1);
      assert Total(q) <= Total(p);
      assert Total(q) == Total(p);
      assert us[..m][..a] == us[..a];
      PruneAllSqueeze(p, us[..m], a);
    } else {
      assert us[..a] == us;
    }
  }

  /** In a state no round changes, each step of the round changes
      nothing. */
  lemma StableStep(s: seq<seq<string>>, a: nat)
    requires Round(s) == s && a < |Uniques(s)|
    ensures PruneUpTo(s, Uniques(s)[a].0, Uniques(s)[a].1, |s|) == s
  {
    var us := Uniques(s);
    PruneAllSqueeze(s, us, a);
    PruneAllSqueeze(s, us, a + 1);
    PruneAllNext(s, us, a);
  }

  /** In a state no round changes, the name alone at a position appears at
      no other position. */
  lemma StableSeparates(s: seq<seq<string>>, u: nat, idx: nat)
    requires Round(s) == s && u < |s| && idx < |s| && idx != u && |s[u]| == 1
    ensures s[u][0] !in s[idx]
  {
    var us := Uniques(s);
    assert (u, s[u][0]) in us;
    var a :| 0 <= a < |us| && us[a] == (u, s[u][0]);
    StableStep(s, a);
    var r := PruneUpTo(s, u, s[u][0], |s|);
    PruneUpToAt(s, u, s[u][0], |s|);
    assert r[idx] == Remove(s[idx], s[u][0]);
    RemoveMembers(s[idx], s[u][0]);
  }

  // ---------------------------------------------------------------------
  // Part two, last phase: every position must be down to one name.

  /** The single name at each position, or a panic when some position has
      none or several. */
  function Fields(p: seq<seq<string>>): (r: Outcome<seq<string>>)
    ensures r != OutOfFuel
    ensures r.Panic? <==> exists i :: 0 <= i < |p| && |p[i]| != 1
    ensures r.Done? ==> (|r.value| == |p| &&
      forall i :: 0 <= i < |p| ==> |p[i]| == 1 && r.value[i] == p[i][0])
  {
    if p == [] then Done([])
    else
      var m := |p| - 1;
      assert forall i :: 0 <= i < m ==> p[..m][i] == p[i];
      match Fields(p[..m])
      case Done(init) => if |p[m]| == 1 then Done(init + [p[m][0]]) else Panic
      case _ => Panic
  }

  /** The final `for` loop of `solve_for_field_positions`. */
  method Extract(p: seq<seq<string>>) returns (r: Outcome<seq<string>>)
    ensures r == Fields(p)
  {
    var result: seq<string> := [];
    for idx := 0 to |p|
      invariant Fields(p[..idx]) == Done(result)
    {
      if |p[idx]| == 0 {
        return Panic;
      } else if |p[idx]| > 1 {
        return Panic;
      }
      assert p[..idx + 1][..idx] == p[..idx];
      result := result + [p[idx][0]];
    }
    assert p[..|p|] == p;
    return Done(result);
  }

  /** Part two: elimination over the valid tickets, then settling, then
      one name per position. */
  function FieldPositions(cats: seq<Category>, tickets: seq<seq<nat>>): Outcome<seq<string>> {
    match StrikeTickets(Initial(cats), ValidTickets(tickets, cats), cats)
    case Done(q) => Fields(Settled(q))
    case _ => Panic
  }

  /** `solve_for_field_positions`. */
  method SolveForFieldPositions(cats: seq<Category>, tickets: seq<seq<nat>>) returns (r: Outcome<seq<string>>)
    ensures r == FieldPositions(cats, tickets)
  {
    var valid := ValidTickets(tickets, cats);
    var struck := Eliminate(cats, valid);
    if !struck.Done? {
      return Panic;
    }
    var settled := Settle(struck.value);
    r := Extract(settled);
  }

  /** A successful answer is the settled elimination table read off one
      name per position, one per category. */
  lemma FieldPositionsDone(cats: seq<Category>, tickets: seq<seq<nat>>, r: seq<string>)
    requires FieldPositions(cats, tickets) == Done(r)
    ensures var e := StrikeTickets(Initial(cats), ValidTickets(tickets, cats), cats);
      e.Done? && Fields(Settled(e.value)) == Done(r)
    ensures |r| == |cats|
  {
    var p := Initial(cats);
    var valid := ValidTickets(tickets, cats);
    StrikeTicketsMeaning(p, valid, cats);
    SettledShrinks(StrikeTickets(p, valid, cats).value);
  }

  /** The name the answer gives position `i` is a category name that no
      valid ticket struck there. */
  lemma FieldPositionsNotStruck(cats: seq<Category>, tickets: seq<seq<nat>>, r: seq<string>, i: nat)
    requires FieldPositions(cats, tickets) == Done(r) && i < |r|
    ensures r[i] in Names(cats) && !StruckAt(ValidTickets(tickets, cats), cats, i, r[i])
  {
    var valid := ValidTickets(tickets, cats);
    var p := Initial(cats);
    FieldPositionsDone(cats, tickets, r);
    StrikeTicketsMeaning(p, valid, cats);
    var q := StrikeTickets(p, valid, cats).value;
    SettledShrinks(q);
    assert r[i] in Settled(q)[i];
    assert r[i] in q[i];
  }

  /** A value no category of name `n` fails stays in range for all of
      them. */
  lemma NotStruckFits(valid: seq<seq<nat>>, cats: seq<Category>, i: nat, n: string, t: seq<nat>, j: nat)
    requires !StruckAt(valid, cats, i, n) && t in valid && i < |t| && j < |cats| && cats[j].name == n
    ensures FitsAny(t[i], cats[j].ranges)
  {
  }

  /** In a successful answer, the value at position `i` of every valid
      ticket lies in some range of every category named `r[i]`. */
  lemma FieldFits(cats: seq<Category>, tickets: seq<seq<nat>>, r: seq<string>, i: nat, t: seq<nat>, j: nat)
    requires FieldPositions(cats, tickets) == Done(r) && i < |r|
    requires t in tickets && TicketIsValid(t, cats) && i < |t| && j < |cats| && cats[j].name == r[i]
    ensures FitsAny(t[i], cats[j].ranges)
  {
    var valid := ValidTickets(tickets, cats);
    FieldPositionsNotStruck(cats, tickets, r, i);
    assert t in valid;
    NotStruckFits(valid, cats, i, r[i], t, j);
  }

  /** A successful answer uses no category name twice. */
  lemma FieldPositionsDistinct(cats: seq<Category>, tickets: seq<seq<nat>>, r: seq<string>)
    requires FieldPositions(cats, tickets) == Done(r)
    ensures forall i, k :: 0 <= i < k < |r| ==> r[i] != r[k]
  {
    FieldPositionsDone(cats, tickets, r);
    var q := StrikeTickets(Initial(cats), ValidTickets(tickets, cats), cats).value;
    var s := Settled(q);
    SettledIsStable(q);
    forall i, k | 0 <= i < k < |r|
      ensures r[i] != r[k]
    {
      StableSeparates(s, i, k);
    }
  }
}
