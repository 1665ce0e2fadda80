/** Day 7: bag rules "X bags contain n Y bags, ...", searched for a bag
    that holds a given one and summed for the bags one bag holds
    (7/src/main.rs).  Rules may be cyclic, so every recursion carries fuel:
    one unit per rule visited, `OutOfFuel` when it runs out. */
module HandyHaversacks {
  import opened Outcomes
  import opened Strings
  import opened Decimal

  /** A rule's contents: (count, colour) in the order the rule lists them. */
  type Contents = seq<(nat, string)>

  /** The rule table: colour to contents. */
  type Rules = map<string, Contents>

  /** The colour `main` searches for and starts the sum from. */
  const TARGET: string := "shiny gold"

  /** The colour the rule text uses for an empty bag. */
  const NO_OTHER: string := "no other"

  // ---------------------------------------------------------------------
  // Parsing

  /** One match of the rule pattern: the digits of the optional count group
      and the two-word colour.  The group also holds one space after the
      digits, which the source's `trim` removes; it is left out here. */
  datatype Capture = Capture(count: Option<string>, color: string)

  /** The count of a content capture: a missing group, or digits beyond
      `u32`, is `None` (the `unwrap` panics). */
  function CountOf(c: Capture): Option<nat> {
    if c.count.None? then None else ParseUnsigned(c.count.value, U32_MAX)
  }

  /** The content captures whose count is unreadable. */
  predicate BadCount(c: Capture) {
    c.color != NO_OTHER && CountOf(c).None?
  }

  /** The contents the captures after the first describe: "no other" is
      skipped, every other capture gives (count, colour).  (A capture with
      an unreadable count is skipped too; the parse panics before that
      matters.) */
  function Kept(caps: seq<Capture>): (r: Contents)
    ensures |r| <= |caps|
  {
    if caps == [] then [] else Kept(caps[..|caps| - 1]) + KeptEntry(caps[|caps| - 1])
  }

  function KeptEntry(c: Capture): (r: Contents)
    ensures |r| <= 1
  {
    if c.color == NO_OTHER || CountOf(c).None? then [] else [(CountOf(c).value, c.color)]
  }

  lemma KeptStep(caps: seq<Capture>, n: nat)
    requires 1 < n <= |caps|
    ensures Kept(caps[1..n]) == Kept(caps[1..n - 1]) + KeptEntry(caps[n - 1])
  {
    var prefix := caps[1..n];
    assert prefix[..n - 2] == caps[1..n - 1];
    assert prefix[n - 2] == caps[n - 1];
  }

  /** The loop of `parse_single_bag_rule` after the first `n` matches: the
      first match names the container, "no other" is skipped, any other
      match adds (count, colour), and an unreadable count panics. */
  function ParseFrom(caps: seq<Capture>, n: nat): Outcome<(string, Contents)>
    requires n <= |caps|
  {
    if n == 0 then Done(("", []))
    else
      var prev := ParseFrom(caps, n - 1);
      var cap := caps[n - 1];
      if !prev.Done? then prev
      else if n == 1 then Done((cap.color, prev.value.1))
      else if cap.color == NO_OTHER then prev
      else if CountOf(cap).None? then Panic
      else Done((prev.value.0, prev.value.1 + [(CountOf(cap).value, cap.color)]))
  }

  /** The parse panics exactly when a content match has an unreadable
      count. */
  lemma {:induction false} ParseFromPanics(caps: seq<Capture>, n: nat)
    requires n <= |caps|
    ensures ParseFrom(caps, n) != OutOfFuel
    ensures ParseFrom(caps, n).Panic? <==> exists i :: 1 <= i < n && BadCount(caps[i])
  {
    if n > 1 {
      ParseFromPanics(caps, n - 1);
      if ParseFrom(caps, n - 1).Panic? {
        var i :| 1 <= i < n - 1 && BadCount(caps[i]);
        assert 1 <= i < n && BadCount(caps[i]);
      } else if BadCount(caps[n - 1]) {
        assert 1 <= n - 1 < n && BadCount(caps[n - 1]);
      } else {
        forall i | 1 <= i < n ensures !BadCount(caps[i]) {
          if i < n - 1 {
            assert !(1 <= i < n - 1 && BadCount(caps[i]));
          }
        }
      }
    }
  }

  /** A parse that does not panic gives the first colour as the container
      (empty when nothing matched) and the other matches as contents, in
      order, "no other" skipped. */
  lemma {:induction false} ParseFromValue(caps: seq<Capture>, n: nat)
    requires n <= |caps| && ParseFrom(caps, n).Done?
    ensures ParseFrom(caps, n).value == if n == 0 then ("", []) else (caps[0].color, Kept(caps[1..n]))
  {
    if n > 1 {
      ParseFromValue(caps, n - 1);
      KeptStep(caps, n);
      var prev := ParseFrom(caps, n - 1).value;
      if caps[n - 1].color == NO_OTHER {
        assert KeptEntry(caps[n - 1]) == [];
        assert prev.1 + [] == prev.1;
      }
    } else if n == 1 {
      assert caps[1..1] == [];
    }
  }

  /** `parse_single_bag_rule` over the pattern's matches. */
  method ParseSingleBagRule(caps: seq<Capture>) returns (r: Outcome<(string, Contents)>)
    ensures r == ParseFrom(caps, |caps|)
  {
    var color := "";
    var contents: Contents := [];
    for idx := 0 to |caps|
      invariant ParseFrom(caps, idx) == Done((color, contents))
    {
      var cap := caps[idx];
      if idx == 0 {
        color := cap.color;
      } else if cap.color == NO_OTHER {
      } else {
        var cnt := CountOf(cap);
        if cnt.None? {
          PanicStays(caps, idx + 1, |caps|);
          return Panic;
        }
        contents := contents + [(cnt.value, cap.color)];
      }
    }
    r := Done((color, contents));
  }

  lemma {:induction false} PanicStays(caps: seq<Capture>, m: nat, n: nat)
    requires m <= n <= |caps| && ParseFrom(caps, m) == Panic
    ensures ParseFrom(caps, n) == Panic
    decreases n
  {
    if m < n {
      PanicStays(caps, m, n - 1);
    }
  }

  /** A one-digit count reads as that digit. */
  lemma DigitCount(d: char, color: string)
    requires '1' <= d <= '9'
    ensures CountOf(Capture(Some([d]), color)) == Some(DigitValue(d))
  {
    assert DigitsValue([d]) == DigitValue(d) by {
      assert [d][..0] == [];
    }
  }

  /** "faded blue bags contain no other bags": no contents. */
  lemma ParseNoOther()
    ensures Kept([Capture(None, NO_OTHER)]) == []
  {
    assert [Capture(None, NO_OTHER)][..0] == [];
  }

  /** "bright white bags contain 1 shiny gold bags": one entry. */
  lemma ParseOneEntry()
    ensures Kept([Capture(Some("1"), "shiny gold")]) == [(1, "shiny gold")]
  {
    DigitCount('1', "shiny gold");
    assert [Capture(Some("1"), "shiny gold")][..0] == [];
  }

  /** "dark orange bags contain 3 bright white bags, 4 muted yellow bags.":
      two entries, in order. */
  lemma ParseTwoEntries()
    ensures Kept([Capture(Some("3"), "bright white"), Capture(Some("4"), "muted yellow")])
      == [(3, "bright white"), (4, "muted yellow")]
  {
    var two := [Capture(Some("3"), "bright white"), Capture(Some("4"), "muted yellow")];
    DigitCount('3', "bright white");
    DigitCount('4', "muted yellow");
    assert two[..1] == [two[0]];
    assert [two[0]][..0] == [];
    assert Kept([two[0]]) == [(3, "bright white")];
  }

  /** `parse_bag_rules`: each rule in turn is inserted, so a colour that has
      several rules keeps the last one. */
  method ParseBagRules(parsed: seq<(string, Contents)>) returns (rules: Rules)
    ensures forall c :: c in rules <==> exists i :: 0 <= i < |parsed| && parsed[i].0 == c
    ensures forall c :: c in rules ==>
      exists i :: 0 <= i < |parsed| && parsed[i] == (c, rules[c]) && forall j :: i < j < |parsed| ==> parsed[j].0 != c
  {
    rules := map[];
    for n := 0 to |parsed|
      invariant forall c :: c in rules <==> exists i :: 0 <= i < n && parsed[i].0 == c
      invariant forall c :: c in rules ==>
        exists i :: 0 <= i < n && parsed[i] == (c, rules[c]) && forall j :: i < j < n ==> parsed[j].0 != c
    {
      var (color, contents) := parsed[n];
      rules := rules[color := contents];
    }
  }

  // ---------------------------------------------------------------------
  // Searching for a bag inside another

  /** The count of the first entry naming `target`, if any. */
  function Direct(contents: Contents, target: string): (r: Option<nat>)
    ensures r.None? <==> forall i :: 0 <= i < |contents| ==> contents[i].1 != target
    ensures r.Some? ==> exists i :: 0 <= i < |contents| && contents[i] == (r.value, target)
  {
    if contents == [] then None
    else if contents[0].1 == target then Some(contents[0].0)
    else
      var r := Direct(contents[1..], target);
      assert forall i :: 1 <= i < |contents| ==> contents[i] == contents[1..][i - 1];
      assert r.Some? ==> (exists i :: 0 <= i < |contents[1..]| && contents[1..][i] == (r.value, target));
      r
  }

  /** `search_rule`: 0 without a rule; the count of a direct entry; else
      count times the first non-zero result among the contents; else 0. */
  function Search(rules: Rules, target: string, cand: string, fuel: nat): (r: Outcome<nat>)
    ensures r != Panic
    decreases fuel, 0, 0
  {
    if fuel == 0 then OutOfFuel
    else if cand !in rules then Done(0)
    else
      var direct := Direct(rules[cand], target);
      if direct.Some? then Done(direct.value) else SearchFrom(rules, target, rules[cand], 0, fuel - 1)
  }

  /** The second loop of `search_rule`, from entry `i` on. */
  function SearchFrom(rules: Rules, target: string, contents: Contents, i: nat, fuel: nat): (r: Outcome<nat>)
    requires i <= |contents|
    ensures r != Panic
    decreases fuel, 1, |contents| - i
  {
    if i == |contents| then Done(0)
    else
      var sub := Search(rules, target, contents[i].1, fuel);
      if !sub.Done? then OutOfFuel
      else if sub.value > 0 then Done(contents[i].0 * sub.value)
      else SearchFrom(rules, target, contents, i + 1, fuel)
  }

  /** `search_rule` with its two loops and early returns. */
  method SearchRule(rules: Rules, target: string, cand: string, fuel: nat) returns (r: Outcome<nat>)
    ensures r == Search(rules, target, cand, fuel)
    decreases fuel
  {
    if fuel == 0 {
      return OutOfFuel;
    }
    if cand !in rules {
      return Done(0);
    }
    var contents := rules[cand];
    for i := 0 to |contents|
      invariant forall j :: 0 <= j < i ==> contents[j].1 != target
    {
      if contents[i].1 == target {
        DirectFirst(contents, target, i);
        return Done(contents[i].0);
      }
    }
    for i := 0 to |contents|
      invariant SearchFrom(rules, target, contents, i, fuel - 1) == Search(rules, target, cand, fuel)
    {
      var sub := SearchRule(rules, target, contents[i].1, fuel - 1);
      if !sub.Done? {
        return OutOfFuel;
      }
      if sub.value > 0 {
        return Done(contents[i].0 * sub.value);
      }
    }
    r := Done(0);
  }

  lemma {:induction false} DirectFirst(contents: Contents, target: string, i: nat)
    requires i < |contents| && contents[i].1 == target
    requires forall j :: 0 <= j < i ==> contents[j].1 != target
    ensures Direct(contents, target) == Some(contents[i].0)
  {
    if i > 0 {
      DirectFirst(contents[1..], target, i - 1);
    }
  }

  /** Every rule lists positive counts (as the rule text always does). */
  ghost predicate PositiveCounts(rules: Rules) {
    forall c, i :: c in rules && 0 <= i < |rules[c]| ==> rules[c][i].0 > 0
  }

  /** `cand`'s rule names `target`, directly or through a chain of at most
      `fuel` rules. */
  ghost predicate Reaches(rules: Rules, cand: string, target: string, fuel: nat)
    decreases fuel
  {
    fuel > 0 && cand in rules &&
    exists i :: 0 <= i < |rules[cand]| &&
      (rules[cand][i].1 == target || Reaches(rules, rules[cand][i].1, target, fuel - 1))
  }

  /** With positive counts, a finished search is positive exactly when the
      candidate holds the target within the fuel's depth. */
  lemma {:induction false} SearchFindsPath(rules: Rules, target: string, cand: string, fuel: nat)
    requires PositiveCounts(rules) && Search(rules, target, cand, fuel).Done?
    ensures Search(rules, target, cand, fuel).value > 0 <==> Reaches(rules, cand, target, fuel)
    decreases fuel, 0, 0
  {
    if cand in rules {
      var contents := rules[cand];
      var direct := Direct(contents, target);
      if direct.Some? {
        var i :| 0 <= i < |contents| && contents[i] == (direct.value, target);
        assert rules[cand][i].0 > 0;
      } else {
        SearchFromFindsPath(rules, target, contents, 0, fuel - 1);
        if Reaches(rules, cand, target, fuel) {
          var i :| 0 <= i < |contents| && (contents[i].1 == target || Reaches(rules, contents[i].1, target, fuel - 1));
        }
      }
    }
  }

  lemma {:induction false} SearchFromFindsPath(rules: Rules, target: string, contents: Contents, i: nat, fuel: nat)
    requires PositiveCounts(rules) && i <= |contents|
    requires forall j :: 0 <= j < |contents| ==> contents[j].0 > 0
    requires SearchFrom(rules, target, contents, i, fuel).Done?
    ensures SearchFrom(rules, target, contents, i, fuel).value > 0 <==>
      exists j :: i <= j < |contents| && Reaches(rules, contents[j].1, target, fuel)
    decreases fuel, 1, |contents| - i
  {
    if i < |contents| {
      var sub := Search(rules, target, contents[i].1, fuel);
      SearchFindsPath(rules, target, contents[i].1, fuel);
      if sub.value > 0 {
        assert contents[i].0 * sub.value > 0;
      } else {
        SearchFromFindsPath(rules, target, contents, i + 1, fuel);
      }
    }
  }

  /** More fuel never changes a finished search. */
  lemma {:induction false} SearchFuel(rules: Rules, target: string, cand: string, fuel: nat)
    requires Search(rules, target, cand, fuel).Done?
    ensures Search(rules, target, cand, fuel + 1) == Search(rules, target, cand, fuel)
    decreases fuel, 0, 0
  {
    if cand in rules && Direct(rules[cand], target).None? {
      SearchFromFuel(rules, target, rules[cand], 0, fuel - 1);
    }
  }

  lemma {:induction false} SearchFromFuel(rules: Rules, target: string, contents: Contents, i: nat, fuel: nat)
    requires i <= |contents| && SearchFrom(rules, target, contents, i, fuel).Done?
    ensures SearchFrom(rules, target, contents, i, fuel + 1) == SearchFrom(rules, target, contents, i, fuel)
    decreases fuel, 1, |contents| - i
  {
    if i < |contents| {
      SearchFuel(rules, target, contents[i].1, fuel);
      if Search(rules, target, contents[i].1, fuel).value == 0 {
        SearchFromFuel(rules, target, contents, i + 1, fuel);
      }
    }
  }

  // ---------------------------------------------------------------------
  // Counting the colours that hold the target

  /** The colours with a rule whose finished search is positive. */
  ghost function Containers(rules: Rules, target: string, fuel: nat): set<string> {
    set c | c in rules && Search(rules, target, c, fuel).Done? && Search(rules, target, c, fuel).value > 0
  }

  /** The count `main` prints, or `OutOfFuel` when some search runs out. */
  ghost function ContainerCount(rules: Rules, target: string, fuel: nat): Outcome<nat> {
    if AllDone(rules, target, fuel, rules.Keys) then Done(|Containers(rules, target, fuel)|)
    else OutOfFuel
  }

  ghost predicate AllDone(rules: Rules, target: string, fuel: nat, colors: set<string>) {
    forall c :: c in colors ==> Search(rules, target, c, fuel).Done?
  }

  /** The counting loop of `main`, over the rule table's keys in any order. */
  method CountContainers(rules: Rules, target: string, fuel: nat) returns (r: Outcome<nat>)
    ensures r == ContainerCount(rules, target, fuel)
  {
    var count := 0;
    var todo := rules.Keys;
    ghost var done: set<string> := {};
    while todo != {}
      invariant todo <= rules.Keys && done == rules.Keys - todo
      invariant AllDone(rules, target, fuel, done)
      invariant count == |Containers(rules, target, fuel) * done|
      decreases |todo|
    {
      var color :| color in todo;
      var cntOnPath := SearchRule(rules, target, color, fuel);
      if !cntOnPath.Done? {
        return OutOfFuel;
      }
      ContainersStep(rules, target, fuel, todo, done, color);
      if cntOnPath.value > 0 {
        count := count + 1;
      }
      todo := todo - {color};
      done := done + {color};
    }
    assert Containers(rules, target, fuel) * done == Containers(rules, target, fuel);
    r := Done(count);
  }

  /** One colour of the loop: it moves from `todo` to `done`, and the count
      of containers among the visited colours grows by one exactly when its
      search is positive. */
  lemma ContainersStep(rules: Rules, target: string, fuel: nat, todo: set<string>, done: set<string>, color: string)
    requires todo <= rules.Keys && done == rules.Keys - todo && AllDone(rules, target, fuel, done)
    requires color in todo && Search(rules, target, color, fuel).Done?
    ensures todo - {color} <= rules.Keys && done + {color} == rules.Keys - (todo - {color})
    ensures AllDone(rules, target, fuel, done + {color})
    ensures |Containers(rules, target, fuel) * (done + {color})| ==
      |Containers(rules, target, fuel) * done| + (if Search(rules, target, color, fuel).value > 0 then 1 else 0)
  {
    var cs := Containers(rules, target, fuel);
    if Search(rules, target, color, fuel).value > 0 {
      assert cs * (done + {color}) == cs * done + {color};
    } else {
      assert cs * (done + {color}) == cs * done;
    }
  }

  /** With positive counts the printed count is the number of colours that
      hold the target within the fuel's depth. */
  lemma ContainerCountReaches(rules: Rules, target: string, fuel: nat)
    requires PositiveCounts(rules) && ContainerCount(rules, target, fuel).Done?
    ensures ContainerCount(rules, target, fuel).value == |set c | c in rules && Reaches(rules, c, target, fuel)|
  {
    forall c | c in rules
      ensures c in Containers(rules, target, fuel) <==> Reaches(rules, c, target, fuel)
    {
      SearchFindsPath(rules, target, c, fuel);
    }
    assert Containers(rules, target, fuel) == set c | c in rules && Reaches(rules, c, target, fuel);
  }

  // ---------------------------------------------------------------------
  // Summing the bags inside a bag

  /** `accum_path_stats`: `coeff` plus, for each entry, the sum for its
      colour with `coeff * count`.  (The source's `sum == 0` branch returns
      `coeff`, which is `coeff + sum` as well.) */
  function Accum(rules: Rules, cand: string, coeff: nat, fuel: nat): (r: Outcome<nat>)
    ensures r != Panic
    ensures r.Done? ==> r.value >= coeff
    decreases fuel, 0, 0
  {
    if fuel == 0 then OutOfFuel
    else if cand !in rules then Done(coeff)
    else
      var sum := AccumFrom(rules, rules[cand], |rules[cand]|, coeff, fuel - 1);
      if sum.Done? then Done(coeff + sum.value) else OutOfFuel
  }

  /** The sum over the first `n` entries of `contents`. */
  function AccumFrom(rules: Rules, contents: Contents, n: nat, coeff: nat, fuel: nat): (r: Outcome<nat>)
    requires n <= |contents|
    ensures r != Panic
    decreases fuel, 1, n
  {
    if n == 0 then Done(0)
    else
      var s := AccumFrom(rules, contents, n - 1, coeff, fuel);
      var x := Accum(rules, contents[n - 1].1, coeff * contents[n - 1].0, fuel);
      if s.Done? && x.Done? then Done(s.value + x.value) else OutOfFuel
  }

  function Sum(xs: seq<nat>): nat {
    if xs == [] then 0 else Sum(xs[..|xs| - 1]) + xs[|xs| - 1]
  }

  /** `summables.iter().sum()`. */
  method SumAll(xs: seq<nat>) returns (s: nat)
    ensures s == Sum(xs)
  {
    s := 0;
    for i := 0 to |xs|
      invariant s == Sum(xs[..i])
    {
      assert xs[..i + 1][..i] == xs[..i];
      s := s + xs[i];
    }
    assert xs[..|xs|] == xs;
  }

  /** `accum_path_stats`, collecting the entries' sums and adding them up. */
  method AccumPathStats(rules: Rules, cand: string, coeff: nat, fuel: nat) returns (r: Outcome<nat>)
    ensures r == Accum(rules, cand, coeff, fuel)
    decreases fuel
  {
    if fuel == 0 {
      return OutOfFuel;
    }
    if cand !in rules {
      return Done(coeff);
    }
    var contents := rules[cand];
    var summables: seq<nat> := [];
    for i := 0 to |contents|
      invariant AccumFrom(rules, contents, i, coeff, fuel - 1) == Done(Sum(summables))
    {
      var (cnt, color) := contents[i];
      var subAccum := AccumPathStats(rules, color, coeff * cnt, fuel - 1);
      if !subAccum.Done? {
        AccumFromOutOfFuel(rules, contents, i + 1, |contents|, coeff, fuel - 1);
        return OutOfFuel;
      }
      assert (summables + [subAccum.value])[..|summables|] == summables;
      summables := summables + [subAccum.value];
    }
    var sum := SumAll(summables);
    if sum == 0 {
      r := Done(coeff);
    } else {
      r := Done(coeff + sum);
    }
  }

  /** Running out of fuel on a prefix runs out on the whole. */
  lemma {:induction false} AccumFromOutOfFuel(rules: Rules, contents: Contents, m: nat, n: nat, coeff: nat, fuel: nat)
    requires m <= n <= |contents| && AccumFrom(rules, contents, m, coeff, fuel) == OutOfFuel
    ensures AccumFrom(rules, contents, n, coeff, fuel) == OutOfFuel
    decreases n
  {
    if m < n {
      AccumFromOutOfFuel(rules, contents, m, n - 1, coeff, fuel);
    }
  }

  /** A finished sum scaled by `k`. */
  function Scale(k: nat, r: Outcome<nat>): Outcome<nat> {
    if r.Done? then Done(k * r.value) else r
  }

  /** The sum is linear in `coeff`: starting from `coeff` gives `coeff`
      times the sum from 1, the total number of bags counting the outer one. */
  lemma {:induction false} AccumLinear(rules: Rules, cand: string, coeff: nat, fuel: nat)
    ensures Accum(rules, cand, coeff, fuel) == Scale(coeff, Accum(rules, cand, 1, fuel))
    decreases fuel, 0, 0
  {
    if fuel > 0 && cand in rules {
      var contents := rules[cand];
      AccumFromLinear(rules, contents, |contents|, coeff, fuel - 1);
      var inner := AccumFrom(rules, contents, |contents|, 1, fuel - 1);
      if inner.Done? {
        assert coeff + coeff * inner.value == coeff * (1 + inner.value);
      }
    }
  }

  lemma {:induction false} AccumFromLinear(rules: Rules, contents: Contents, n: nat, coeff: nat, fuel: nat)
    requires n <= |contents|
    ensures AccumFrom(rules, contents, n, coeff, fuel) == Scale(coeff, AccumFrom(rules, contents, n, 1, fuel))
    decreases fuel, 1, n
  {
    if n > 0 {
      var (cnt, color) := contents[n - 1];
      AccumFromLinear(rules, contents, n - 1, coeff, fuel);
      AccumLinear(rules, color, coeff * cnt, fuel);
      AccumLinear(rules, color, cnt, fuel);
      assert 1 * cnt == cnt;
      var t := Accum(rules, color, 1, fuel);
      var s1 := AccumFrom(rules, contents, n - 1, 1, fuel);
      if t.Done? && s1.Done? {
        ScaleSum(coeff, cnt, s1.value, t.value);
      }
    }
  }

  lemma ScaleSum(k: nat, c: nat, s: nat, t: nat)
    ensures k * s + (k * c) * t == k * (s + c * t)
  {
    assert (k * c) * t == k * (c * t);
    assert k * s + k * (c * t) == k * (s + c * t);
  }

  /** The number of bags inside: the sum from 1 less the outer bag, which
      is what `main` prints; it never underflows. */
  function BagsInside(rules: Rules, cand: string, fuel: nat): (r: Outcome<nat>)
  {
    var total := Accum(rules, cand, 1, fuel);
    if total.Done? then Done(total.value - 1) else OutOfFuel
  }

  /** The bags inside a bag are, for each entry, `count` bags each holding
      their own bags inside: the sum `main` prints satisfies the usual
      recurrence. */
  lemma BagsInsideRecurrence(rules: Rules, cand: string, fuel: nat)
    requires fuel > 0 && cand in rules && BagsInside(rules, cand, fuel).Done?
    ensures var contents := rules[cand];
      Weighted(rules, contents, |contents|, fuel - 1).Done? &&
      BagsInside(rules, cand, fuel).value == Weighted(rules, contents, |contents|, fuel - 1).value
  {
    WeightedIsAccumFrom(rules, rules[cand], |rules[cand]|, fuel - 1);
  }

  /** Σ count * (1 + bags inside the entry's colour) over the first `n`
      entries. */
  function Weighted(rules: Rules, contents: Contents, n: nat, fuel: nat): Outcome<nat>
    requires n <= |contents|
  {
    if n == 0 then Done(0)
    else
      var s := Weighted(rules, contents, n - 1, fuel);
      var b := BagsInside(rules, contents[n - 1].1, fuel);
      if s.Done? && b.Done? then Done(s.value + contents[n - 1].0 * (1 + b.value)) else OutOfFuel
  }

  lemma {:induction false} WeightedIsAccumFrom(rules: Rules, contents: Contents, n: nat, fuel: nat)
    requires n <= |contents|
    ensures Weighted(rules, contents, n, fuel) == AccumFrom(rules, contents, n, 1, fuel)
  {
    if n > 0 {
      WeightedIsAccumFrom(rules, contents, n - 1, fuel);
      var (cnt, color) := contents[n - 1];
      AccumLinear(rules, color, 1 * cnt, fuel);
    }
  }
}
