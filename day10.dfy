/** Day 10: ordering the adapters, the histogram of joltage steps, and the
    number of ways to arrange the adapters (10/src/main.rs). */
module AdapterArray {
  import opened Outcomes
  import opened Sorting

  /** The joltages sorted; a sorted permutation of naturals is natural. */
  function SortNat(js: seq<nat>): (r: seq<nat>)
    ensures Sorted(r) && multiset(r) == multiset(js) && |r| == |js|
  {
    SortNonNegative(js);
    Sort(js)
  }

  /** The joltage before position `k`: the outlet's 0 before the first one. */
  function Prev(s: seq<nat>, k: nat): nat
    requires k <= |s|
  {
    if k == 0 then 0 else s[k - 1]
  }

  /** Every step from the previous joltage (0 before the first) is at most 3. */
  predicate Chained(s: seq<nat>) {
    forall k :: 0 <= k < |s| ==> s[k] - Prev(s, k) <= 3
  }

  /** What `find_seq` returns: whether the chain is valid, and the vector. */
  datatype Chain = Chain(valid: bool, adapters: seq<nat>)

  /** `find_seq`: the sorted joltages, with the device (3 above the last
      adapter, or above the outlet when there is none) appended when no step
      is larger than 3. */
  function FindSeqOf(js: seq<nat>): Chain {
    var s := SortNat(js);
    if Chained(s) then Chain(true, s + [Prev(s, |s|) + 3]) else Chain(false, s)
  }

  /** `find_seq`: the vector is sorted in place, walked while the step from
      the previous joltage stays within 3, and extended on success. */
  method FindSeq(js: seq<nat>) returns (valid: bool, s: seq<nat>)
    ensures Chain(valid, s) == FindSeqOf(js)
  {
    s := SortNat(js);
    var prev: nat := 0;
    for i := 0 to |s|
      invariant prev == Prev(s, i)
      invariant forall k :: 0 <= k < i ==> s[k] - Prev(s, k) <= 3
    {
      if s[i] - prev > 3 {
        assert !Chained(s);
        assert FindSeqOf(js) == Chain(false, s);
        return false, s;
      }
      prev := s[i];
    }
    assert Chained(s);
    assert FindSeqOf(js) == Chain(true, s + [prev + 3]);
    s := s + [prev + 3];
    return true, s;
  }

  /** A sorted chain extended by its device is still a sorted chain. */
  lemma Extended(s: seq<nat>)
    requires Sorted(s) && Chained(s)
    ensures Sorted(s + [Prev(s, |s|) + 3]) && Chained(s + [Prev(s, |s|) + 3])
  {
    var t := s + [Prev(s, |s|) + 3];
    forall i, j | 0 <= i < j < |t| ensures t[i] <= t[j] {
      if j == |s| {
        assert s[i] <= s[|s| - 1];
      }
    }
    forall k | 0 <= k < |t| ensures t[k] - Prev(t, k) <= 3 {
      if k < |s| {
        assert t[k] == s[k] && Prev(t, k) == Prev(s, k);
      } else {
        assert Prev(t, k) == Prev(s, |s|);
      }
    }
  }

  /** The vector is always a sorted permutation of the input, plus the
      device on success; it is valid exactly when no step exceeds 3, and a
      valid result is itself a sorted chain whose last step is 3. */
  lemma FindSeqMeaning(js: seq<nat>)
    ensures FindSeqOf(js).valid <==> Chained(SortNat(js))
    ensures FindSeqOf(js).adapters[..|js|] == SortNat(js)
    ensures !FindSeqOf(js).valid ==> |FindSeqOf(js).adapters| == |js|
    ensures FindSeqOf(js).valid ==>
      var t := FindSeqOf(js).adapters;
      |t| == |js| + 1 && Sorted(t) && Chained(t) && t[|js|] == Prev(t, |js|) + 3
  {
    var s := SortNat(js);
    if Chained(s) {
      var t := s + [Prev(s, |s|) + 3];
      assert FindSeqOf(js) == Chain(true, t);
      Extended(s);
      assert t[..|js|] == s;
    }
  }

  /** The example of the tests: the adapters of the first example, once
      sorted, form this chain. */
  const EXAMPLE1: seq<nat> := [1, 4, 5, 6, 7, 10, 11, 12, 15, 16, 19, 22]

  /** Whatever order the adapters 1, 4, …, 19 come in, `find_seq` succeeds
      and yields the chain of the first example. */
  lemma FindSeqExample(js: seq<nat>)
    requires multiset(js) == multiset(EXAMPLE1[..11])
    ensures FindSeqOf(js) == Chain(true, EXAMPLE1)
  {
    var e := EXAMPLE1[..11];
    AdjacentSorted(e);
    SortedUnique(SortNat(js), e);
    ExampleChained();
  }

  /** The adapters of the first example, sorted, form a chain up to 19. */
  lemma ExampleChained()
    ensures var e := EXAMPLE1[..11]; Chained(e) && e + [Prev(e, |e|) + 3] == EXAMPLE1
  {
  }

  /** No joltage is below the one before it (the `u32` subtraction of
      `delta_histo` would underflow). */
  predicate Rising(js: seq<nat>) {
    forall k :: 0 <= k < |js| ==> Prev(js, k) <= js[k]
  }

  /** The number of steps equal to `d` among the first `n` joltages. */
  function CountDelta(js: seq<nat>, d: int, n: nat): nat
    requires n <= |js|
  {
    if n == 0 then 0
    else CountDelta(js, d, n - 1) + (if js[n - 1] - Prev(js, n - 1) == d then 1 else 0)
  }

  /** `delta_histo`: the counts of steps 1, 2 and 3, or a panic when a step
      goes down. */
  function Histo(js: seq<nat>): Outcome<seq<nat>> {
    if Rising(js) then Done([CountDelta(js, 1, |js|), CountDelta(js, 2, |js|), CountDelta(js, 3, |js|)])
    else Panic
  }

  /** `delta_histo`: the histogram buffer is bumped at `delta - 1` for each
      step between 1 and 3. */
  method DeltaHisto(js: seq<nat>) returns (r: Outcome<seq<nat>>)
    ensures r == Histo(js)
  {
    var histo := new nat[3](_ => 0);
    var prev: nat := 0;
    for i := 0 to |js|
      invariant prev == Prev(js, i)
      invariant forall k :: 0 <= k < i ==> Prev(js, k) <= js[k]
      invariant histo[..] == [CountDelta(js, 1, i), CountDelta(js, 2, i), CountDelta(js, 3, i)]
    {
      if js[i] < prev {
        return Panic;
      }
      var delta := js[i] - prev;
      if 1 <= delta <= 3 {
        histo[delta - 1] := histo[delta - 1] + 1;
      }
      prev := js[i];
    }
    return Done(histo[..]);
  }

  /** For a rising chain the steps add up to the last joltage:
      `1·h1 + 2·h2 + 3·h3` is the top of the chain, and there are at most
      as many counted steps as joltages. */
  lemma {:induction false} HistoWeights(js: seq<nat>, n: nat)
    requires n <= |js| && Rising(js) && Chained(js)
    ensures CountDelta(js, 1, n) + 2 * CountDelta(js, 2, n) + 3 * CountDelta(js, 3, n) == Prev(js, n)
    ensures CountDelta(js, 1, n) + CountDelta(js, 2, n) + CountDelta(js, 3, n) <= n
  {
    if n > 0 {
      HistoWeights(js, n - 1);
      assert Prev(js, n - 1) <= js[n - 1];
      assert js[n - 1] - Prev(js, n - 1) <= 3;
    }
  }

  /** The histogram of the first example: seven steps of 1, five of 3. */
  lemma HistoExample()
    ensures Histo(EXAMPLE1) == Done([7, 0, 5])
  {
    var e := EXAMPLE1;
    assert Rising(e);
    assert CountDelta(e, 1, 12) == 7;
    assert CountDelta(e, 2, 12) == 0;
    assert CountDelta(e, 3, 12) == 5;
  }

  /** The ways on from adapter `i` through adapter `i + j`: zero when there
      is no such adapter or its joltage is more than 3 above. */
  function Hop(js: seq<nat>, i: nat, j: nat): nat
    requires i < |js| && 1 <= j
    decreases |js| - i, 0
  {
    if i + j < |js| && js[i + j] <= js[i] + 3 then Paths(js, i + j) else 0
  }

  /** The entry `paths[i]` of `count_solutions`: 1 for the last adapter,
      else the sum over the next three positions. */
  function Paths(js: seq<nat>, i: nat): nat
    requires i < |js|
    decreases |js| - i, 1
  {
    if i == |js| - 1 then 1 else Hop(js, i, 1) + Hop(js, i, 2) + Hop(js, i, 3)
  }

  /** The hops `1 .. j - 1` from `i` (the running `from_here`). */
  function HopsBelow(js: seq<nat>, i: nat, j: nat): nat
    requires i < |js| && 1 <= j <= 4
  {
    (if j > 1 then Hop(js, i, 1) else 0) + (if j > 2 then Hop(js, i, 2) else 0)
      + (if j > 3 then Hop(js, i, 3) else 0)
  }

  /** The ways in from the outlet through adapter `j`. */
  function Start(js: seq<nat>, j: nat): nat
    requires j < |js|
  {
    if js[j] <= 3 then Paths(js, j) else 0
  }

  /** `count_solutions`: fewer than three adapters panic (`len - 1`
      underflows on an empty vector, `joltages[j]` is out of range
      otherwise). */
  function Solutions(js: seq<nat>): Outcome<nat> {
    if |js| < 3 then Panic else Done(Start(js, 0) + Start(js, 1) + Start(js, 2))
  }

  /** `count_solutions`: `paths` filled from the back, then the entries the
      outlet can reach added up. */
  method CountSolutions(js: seq<nat>) returns (r: Outcome<nat>)
    ensures r == Solutions(js)
  {
    if |js| == 0 {
      return Panic;
    }
    var paths := new nat[|js|](_ => 1);
    var i := |js| - 1;
    while i > 0
      invariant 0 <= i <= |js| - 1
      invariant forall k :: i <= k < |js| ==> paths[k] == Paths(js, k)
    {
      i := i - 1;
      var fromHere := 0;
      for j := 1 to 4
        invariant fromHere == HopsBelow(js, i, j)
      {
        if i + j < |js| {
          if js[i + j] <= js[i] + 3 {
            fromHere := fromHere + paths[i + j];
          }
        }
      }
      paths[i] := fromHere;
    }
    var finalSum := 0;
    for j := 0 to 3
      invariant j <= |js|
      invariant finalSum == (if j > 0 then Start(js, 0) else 0) + (if j > 1 then Start(js, 1) else 0)
                            + (if j > 2 then Start(js, 2) else 0)
    {
      if j >= |js| {
        return Panic;
      }
      if js[j] <= 3 {
        finalSum := finalSum + paths[j];
      }
    }
    return Done(finalSum);
  }

  /** No entry of a list repeats. */
  predicate Once(l: seq<seq<nat>>) {
    forall a, b :: 0 <= a < b < |l| ==> l[a] != l[b]
  }

  /** An arrangement from adapter `i`: positions that go up by 1 to 3 at a
      time, each joltage at most 3 above the one before, ending at the last
      adapter. */
  predicate IsArrangement(js: seq<nat>, c: seq<nat>, i: nat) {
    && |c| >= 1 && c[0] == i && c[|c| - 1] == |js| - 1
    && (forall k :: 0 <= k < |c| ==> c[k] < |js|)
    && (forall k :: 0 <= k < |c| - 1 ==> c[k] < c[k + 1] <= c[k] + 3 && js[c[k + 1]] <= js[c[k]] + 3)
  }

  /** `i` in front of every arrangement of a list. */
  function Prefixed(i: nat, l: seq<seq<nat>>): (r: seq<seq<nat>>)
    ensures |r| == |l| && forall k :: 0 <= k < |l| ==> r[k] == [i] + l[k]
  {
    seq(|l|, k requires 0 <= k < |l| => [i] + l[k])
  }

  /** The arrangements from `i` through `i + j`. */
  function Through(js: seq<nat>, i: nat, j: nat): (r: seq<seq<nat>>)
    requires i < |js| && 1 <= j
    decreases |js| - i, 0
    ensures |r| == Hop(js, i, j)
  {
    if i + j < |js| && js[i + j] <= js[i] + 3 then Prefixed(i, Arrangements(js, i + j)) else []
  }

  /** An enumeration of the arrangements from `i`, as many as `paths[i]`. */
  function Arrangements(js: seq<nat>, i: nat): (r: seq<seq<nat>>)
    requires i < |js|
    decreases |js| - i, 1
    ensures |r| == Paths(js, i)
  {
    if i == |js| - 1 then [[i]] else Through(js, i, 1) + Through(js, i, 2) + Through(js, i, 3)
  }

  /** Every listed arrangement is one. */
  lemma {:induction false} ListedAreArrangements(js: seq<nat>, i: nat)
    requires i < |js|
    ensures forall k :: 0 <= k < |Arrangements(js, i)| ==> IsArrangement(js, Arrangements(js, i)[k], i)
    decreases |js| - i
  {
    if i < |js| - 1 {
      forall j | 1 <= j <= 3 && i + j < |js| && js[i + j] <= js[i] + 3
        ensures forall k :: 0 <= k < |Through(js, i, j)| ==> IsArrangement(js, Through(js, i, j)[k], i)
      {
        ListedAreArrangements(js, i + j);
        var l := Arrangements(js, i + j);
        forall k | 0 <= k < |l| ensures IsArrangement(js, ([i] + l[k]), i) {
          var c := [i] + l[k];
          assert IsArrangement(js, l[k], i + j);
          forall m | 0 <= m < |c| - 1
            ensures c[m] < c[m + 1] <= c[m] + 3 && js[c[m + 1]] <= js[c[m]] + 3
          {
            if m > 0 {
              assert c[m] == l[k][m - 1] && c[m + 1] == l[k][m];
            }
          }
        }
      }
    }
  }

  /** Only the one-adapter arrangement starts at the last adapter. */
  lemma LastOnly(js: seq<nat>, c: seq<nat>)
    requires |js| > 0 && IsArrangement(js, c, |js| - 1)
    ensures c == [|js| - 1]
  {
    if |c| > 1 {
      FirstHop(js, c, |js| - 1);
      assert false;
    }
  }

  /** The first hop of an arrangement that goes on. */
  lemma FirstHop(js: seq<nat>, c: seq<nat>, i: nat)
    requires IsArrangement(js, c, i) && |c| > 1
    ensures i < c[1] < |js|
  {
  }

  /** An arrangement from `i` that goes on is a first hop followed by an
      arrangement from where that hop lands. */
  lemma Rest(js: seq<nat>, i: nat, c: seq<nat>)
    requires i < |js| - 1 && IsArrangement(js, c, i)
    ensures |c| > 1 && i < c[1] <= i + 3 && c[1] < |js| && js[c[1]] <= js[i] + 3
    ensures IsArrangement(js, c[1..], c[1]) && c == [i] + c[1..]
  {
    var rest := c[1..];
    forall m | 0 <= m < |rest| - 1
      ensures rest[m] < rest[m + 1] <= rest[m] + 3 && js[rest[m + 1]] <= js[rest[m]] + 3
    {
      assert rest[m] == c[m + 1] && rest[m + 1] == c[m + 2];
    }
  }

  /** A listed arrangement from an allowed hop, with `i` in front, is listed
      from `i`. */
  lemma PrefixListed(js: seq<nat>, i: nat, j: nat, rest: seq<nat>)
    requires i < |js| - 1 && 1 <= j <= 3 && i + j < |js| && js[i + j] <= js[i] + 3
    requires rest in Arrangements(js, i + j)
    ensures [i] + rest in Arrangements(js, i)
  {
    var l := Arrangements(js, i + j);
    var k :| 0 <= k < |l| && l[k] == rest;
    assert Through(js, i, j)[k] == [i] + rest;
    assert Arrangements(js, i) == Through(js, i, 1) + Through(js, i, 2) + Through(js, i, 3);
  }

  /** Every arrangement is listed. */
  lemma {:induction false} ArrangementsAreListed(js: seq<nat>, i: nat, c: seq<nat>)
    requires i < |js| && IsArrangement(js, c, i)
    ensures c in Arrangements(js, i)
    decreases |js| - i
  {
    if i == |js| - 1 {
      LastOnly(js, c);
    } else {
      Rest(js, i, c);
      ArrangementsAreListed(js, c[1], c[1..]);
      PrefixListed(js, i, c[1] - i, c[1..]);
    }
  }

  /** Three lists without repeats, whose entries have `i + 1`, `i + 2` and
      `i + 3` second, have none together. */
  lemma ConcatOnce(t1: seq<seq<nat>>, t2: seq<seq<nat>>, t3: seq<seq<nat>>, i: nat)
    requires Once(t1)
    requires Once(t2)
    requires Once(t3)
    requires forall a :: 0 <= a < |t1| ==> |t1[a]| > 1 && t1[a][1] == i + 1
    requires forall a :: 0 <= a < |t2| ==> |t2[a]| > 1 && t2[a][1] == i + 2
    requires forall a :: 0 <= a < |t3| ==> |t3[a]| > 1 && t3[a][1] == i + 3
    ensures Once(t1 + t2 + t3)
  {
    var r := t1 + t2 + t3;
    forall a, b | 0 <= a < b < |r| ensures r[a] != r[b] {
      if b < |t1| {
        assert r[a] == t1[a] && r[b] == t1[b];
      } else if b < |t1| + |t2| {
        assert r[b] == t2[b - |t1|];
        if a >= |t1| {
          assert r[a] == t2[a - |t1|];
        } else {
          assert r[a] == t1[a];
        }
      } else {
        assert r[b] == t3[b - |t1| - |t2|];
        if a >= |t1| + |t2| {
          assert r[a] == t3[a - |t1| - |t2|];
        } else if a >= |t1| {
          assert r[a] == t2[a - |t1|];
        } else {
          assert r[a] == t1[a];
        }
      }
    }
  }

  /** The arrangements through `i + j` are listed once each and all have
      `i + j` second. */
  lemma ThroughOnce(js: seq<nat>, i: nat, j: nat)
    requires i < |js| && 1 <= j <= 3
    requires i + j < |js| ==>
      Once(Arrangements(js, i + j))
    ensures Once(Through(js, i, j))
    ensures forall a :: 0 <= a < |Through(js, i, j)| ==> |Through(js, i, j)[a]| > 1 && Through(js, i, j)[a][1] == i + j
  {
    if i + j < |js| && js[i + j] <= js[i] + 3 {
      ListedAreArrangements(js, i + j);
      var l := Arrangements(js, i + j);
      forall a, b | 0 <= a < b < |l| ensures ([i] + l[a]) != ([i] + l[b]) {
        assert l[a] == ([i] + l[a])[1..] && l[b] == ([i] + l[b])[1..];
      }
      forall a | 0 <= a < |l| ensures ([i] + l[a])[1] == i + j {
        assert IsArrangement(js, l[a], i + j);
      }
    }
  }

  /** No arrangement is listed twice. */
  lemma {:induction false} ListedOnce(js: seq<nat>, i: nat)
    requires i < |js|
    ensures Once(Arrangements(js, i))
    decreases |js| - i
  {
    if i < |js| - 1 {
      ListedOnce(js, i + 1);
      if i + 2 < |js| {
        ListedOnce(js, i + 2);
      }
      if i + 3 < |js| {
        ListedOnce(js, i + 3);
      }
      ThroughOnce(js, i, 1);
      ThroughOnce(js, i, 2);
      ThroughOnce(js, i, 3);
      ConcatOnce(Through(js, i, 1), Through(js, i, 2), Through(js, i, 3), i);
    }
  }

  /** The number of paths of the tests' first example. */
  lemma SolutionsExample()
    ensures Solutions(EXAMPLE1) == Done(8)
  {
    var e := EXAMPLE1;
    assert Paths(e, 11) == 1;
    assert Paths(e, 10) == 1;
    assert Paths(e, 9) == 1;
    assert Paths(e, 8) == 1;
    assert Paths(e, 7) == 1;
    assert Paths(e, 6) == 1;
    assert Paths(e, 5) == 2;
    assert Paths(e, 4) == 2;
    assert Paths(e, 3) == 2;
    assert Paths(e, 2) == 4;
    assert Paths(e, 1) == 8;
    assert Paths(e, 0) == 8;
  }
}
