/** Day 6: customs answers, grouped by blank lines and counted per group
    (6/src/main.rs). */
module CustomCustoms {

  // ---------------------------------------------------------------------
  // Grouping

  /** The groups closed so far and the lines of the open group. */
  datatype Grouping = Grouping(groups: seq<seq<string>>, accum: seq<string>)

  /** One input line: an empty line closes the open group, even when it has
      no lines; any other line joins it. */
  function Step(g: Grouping, ln: string): Grouping {
    if ln == [] then Grouping(g.groups + [g.accum], []) else Grouping(g.groups, g.accum + [ln])
  }

  function Scan(lines: seq<string>): Grouping
    decreases |lines|
  {
    if lines == [] then Grouping([], []) else Step(Scan(lines[..|lines| - 1]), lines[|lines| - 1])
  }

  /** What `group_lines` returns: the last group is kept when it has lines. */
  function Groups(lines: seq<string>): seq<seq<string>> {
    var g := Scan(lines);
    if |g.accum| > 0 then g.groups + [g.accum] else g.groups
  }

  /** `group_lines`. */
  method GroupLines(lines: seq<string>) returns (groups: seq<seq<string>>)
    ensures groups == Groups(lines)
  {
    groups := [];
    var accum: seq<string> := [];
    for i := 0 to |lines|
      invariant Scan(lines[..i]) == Grouping(groups, accum)
    {
      assert lines[..i + 1][..i] == lines[..i];
      var ln := lines[i];
      if |ln| == 0 {
        groups := groups + [accum];
        accum := [];
      } else {
        accum := accum + [ln];
      }
    }
    assert lines[..|lines|] == lines;
    if |accum| > 0 {
      groups := groups + [accum];
    }
  }

  function Flatten(groups: seq<seq<string>>): seq<string> {
    if groups == [] then [] else Flatten(groups[..|groups| - 1]) + groups[|groups| - 1]
  }

  /** The non-empty lines, in order. */
  function NonEmpty(lines: seq<string>): seq<string> {
    if lines == [] then []
    else NonEmpty(lines[..|lines| - 1]) + (if lines[|lines| - 1] == [] then [] else [lines[|lines| - 1]])
  }

  function CountEmpty(lines: seq<string>): nat {
    if lines == [] then 0
    else CountEmpty(lines[..|lines| - 1]) + (if lines[|lines| - 1] == [] then 1 else 0)
  }

  lemma FlattenSnoc(groups: seq<seq<string>>, g: seq<string>)
    ensures Flatten(groups + [g]) == Flatten(groups) + g
  {
    assert (groups + [g])[..|groups|] == groups;
  }

  /** The scan loses no line and invents none: the closed groups followed by
      the open one are the non-empty lines in order, and each empty line
      closes one group. */
  lemma {:induction false} ScanKeepsLines(lines: seq<string>)
    ensures Flatten(Scan(lines).groups) + Scan(lines).accum == NonEmpty(lines)
    ensures |Scan(lines).groups| == CountEmpty(lines)
    ensures forall i :: 0 <= i < |Scan(lines).accum| ==> Scan(lines).accum[i] != []
    decreases |lines|
  {
    if lines != [] {
      var init := lines[..|lines| - 1];
      ScanKeepsLines(init);
      var g := Scan(init);
      FlattenSnoc(g.groups, g.accum);
    }
  }

  /** Concatenating the groups gives the non-empty lines in their order. */
  lemma GroupsKeepLines(lines: seq<string>)
    ensures Flatten(Groups(lines)) == NonEmpty(lines)
  {
    ScanKeepsLines(lines);
    var g := Scan(lines);
    FlattenSnoc(g.groups, g.accum);
  }

  // ---------------------------------------------------------------------
  // Questions anyone answered

  function CharsOf(ln: string): set<char> {
    set c | c in ln
  }

  /** The characters on any line of a group. */
  function CharsOfLines(grp: seq<string>): set<char> {
    if grp == [] then {} else CharsOfLines(grp[..|grp| - 1]) + CharsOf(grp[|grp| - 1])
  }

  /** The sum over the groups of the number of distinct characters in each. */
  function SumDistinct(groups: seq<seq<string>>): nat {
    if groups == [] then 0 else SumDistinct(groups[..|groups| - 1]) + |CharsOfLines(groups[|groups| - 1])|
  }

  /** The sum of the first components over `keys`. */
  ghost function SumOver(m: map<char, (nat, nat)>, keys: set<char>): nat
    requires keys <= m.Keys
  {
    if keys == {} then 0
    else
      var k :| k in keys;
      m[k].0 + SumOver(m, keys - {k})
  }

  lemma {:induction false} SumOverRemove(m: map<char, (nat, nat)>, keys: set<char>, k: char)
    requires keys <= m.Keys && k in keys
    ensures SumOver(m, keys) == m[k].0 + SumOver(m, keys - {k})
    decreases |keys|
  {
    var j :| j in keys && SumOver(m, keys) == m[j].0 + SumOver(m, keys - {j});
    if j != k {
      SumOverRemove(m, keys - {j}, k);
      SumOverRemove(m, keys - {k}, j);
      assert keys - {j} - {k} == keys - {k} - {j};
    }
  }

  lemma {:induction false} SumOverAgree(m1: map<char, (nat, nat)>, m2: map<char, (nat, nat)>, keys: set<char>)
    requires keys <= m1.Keys && keys <= m2.Keys
    requires forall k :: k in keys ==> m1[k].0 == m2[k].0
    ensures SumOver(m1, keys) == SumOver(m2, keys)
    decreases |keys|
  {
    if keys != {} {
      var k :| k in keys;
      SumOverRemove(m1, keys, k);
      SumOverRemove(m2, keys, k);
      SumOverAgree(m1, m2, keys - {k});
    }
  }

  /** Raising one count by one raises the sum by one, whether or not the
      character was already a key. */
  lemma SumOverBump(m: map<char, (nat, nat)>, ch: char, idx: nat)
    ensures var c := if ch in m then m[ch].0 else 0;
      SumOver(m[ch := (c + 1, idx)], m.Keys + {ch}) == SumOver(m, m.Keys) + 1
  {
    var c := if ch in m then m[ch].0 else 0;
    var m' := m[ch := (c + 1, idx)];
    var rest := m.Keys - {ch};
    SumOverRemove(m', m.Keys + {ch}, ch);
    assert m.Keys + {ch} - {ch} == rest;
    SumOverAgree(m, m', rest);
    if ch in m {
      SumOverRemove(m, m.Keys, ch);
    } else {
      assert rest == m.Keys;
    }
  }

  /** What the counting loops keep true while group number `idx1` is being
      read: no key is marked with a later group, the keys marked with this
      group are the characters `seen` in it so far, and the counts add up to
      `base` (the earlier groups) plus one per character seen. */
  ghost predicate AnyInv(accum: map<char, (nat, nat)>, idx1: nat, seen: set<char>, base: nat) {
    && (forall ch :: ch in accum ==> accum[ch].1 <= idx1)
    && (forall ch :: ch in accum && accum[ch].1 == idx1 <==> ch in seen)
    && SumOver(accum, accum.Keys) == base + |seen|
  }

  /** The entry for `ch`, or (0, 0) when it has none. */
  function Entry(accum: map<char, (nat, nat)>, ch: char): (nat, nat) {
    if ch in accum then accum[ch] else (0, 0)
  }

  /** What the character loop does with `ln[ci]`. */
  function Tally(accum: map<char, (nat, nat)>, idx1: nat, ch: char): map<char, (nat, nat)> {
    if idx1 > Entry(accum, ch).1 then accum[ch := (Entry(accum, ch).0 + 1, idx1)] else accum
  }

  /** A first sighting in this group adds one to the sum of the counts. */
  lemma TallySum(accum: map<char, (nat, nat)>, idx1: nat, ch: char)
    requires idx1 > Entry(accum, ch).1
    ensures SumOver(Tally(accum, idx1, ch), Tally(accum, idx1, ch).Keys) == SumOver(accum, accum.Keys) + 1
  {
    SumOverBump(accum, ch, idx1);
    assert accum.Keys + {ch} == Tally(accum, idx1, ch).Keys;
  }

  /** One character of the line: a first sighting in this group bumps its
      count and marks it with the group. */
  lemma AnyStep(accum: map<char, (nat, nat)>, idx1: nat, seen: set<char>, base: nat, ch: char)
    requires idx1 > 0 && AnyInv(accum, idx1, seen, base)
    ensures AnyInv(Tally(accum, idx1, ch), idx1, seen + {ch}, base)
  {
    if idx1 > Entry(accum, ch).1 {
      assert ch !in seen;
      TallySum(accum, idx1, ch);
      assert |seen + {ch}| == |seen| + 1;
    } else {
      assert ch in seen;
      assert seen + {ch} == seen;
    }
  }

  lemma LineStep(accum: map<char, (nat, nat)>, idx1: nat, ln: string, ci: nat, seen0: set<char>, base: nat)
    requires idx1 > 0 && ci < |ln| && AnyInv(accum, idx1, seen0 + CharsOf(ln[..ci]), base)
    ensures AnyInv(Tally(accum, idx1, ln[ci]), idx1, seen0 + CharsOf(ln[..ci + 1]), base)
  {
    var seen := seen0 + CharsOf(ln[..ci]);
    assert seen + {ln[ci]} == seen0 + CharsOf(ln[..ci + 1]) by {
      assert ln[..ci + 1] == ln[..ci] + [ln[ci]];
    }
    AnyStep(accum, idx1, seen, base, ln[ci]);
  }

  /** The innermost loop over the characters of one line. */
  method CountLine(accum0: map<char, (nat, nat)>, idx1: nat, ln: string, ghost seen0: set<char>, ghost base: nat)
    returns (accum: map<char, (nat, nat)>)
    requires idx1 > 0 && AnyInv(accum0, idx1, seen0, base)
    ensures AnyInv(accum, idx1, seen0 + CharsOf(ln), base)
  {
    accum := accum0;
    assert seen0 + CharsOf(ln[..0]) == seen0;
    for ci := 0 to |ln|
      invariant AnyInv(accum, idx1, seen0 + CharsOf(ln[..ci]), base)
    {
      var ch := ln[ci];
      LineStep(accum, idx1, ln, ci, seen0, base);
      accum := Tally(accum, idx1, ch);
    }
    assert ln[..|ln|] == ln;
  }

  /** The loop over the lines of group number `idx1`. */
  method CountGroup(accum0: map<char, (nat, nat)>, idx1: nat, grp: seq<string>, ghost base: nat)
    returns (accum: map<char, (nat, nat)>)
    requires idx1 > 0 && forall ch :: ch in accum0 ==> accum0[ch].1 < idx1
    requires SumOver(accum0, accum0.Keys) == base
    ensures forall ch :: ch in accum ==> accum[ch].1 <= idx1
    ensures SumOver(accum, accum.Keys) == base + |CharsOfLines(grp)|
  {
    accum := accum0;
    for li := 0 to |grp|
      invariant AnyInv(accum, idx1, CharsOfLines(grp[..li]), base)
    {
      assert grp[..li + 1][..li] == grp[..li];
      accum := CountLine(accum, idx1, grp[li], CharsOfLines(grp[..li]), base);
    }
    assert grp[..|grp|] == grp;
  }

  /** `count_answers_for_any`: each character keeps (count, last group
      number); the count goes up once per group, the first time the
      character shows up in it.  The result is the sum of the counts. */
  method CountAnswersForAny(groups: seq<seq<string>>) returns (total: nat)
    ensures total == SumDistinct(groups)
  {
    var accum: map<char, (nat, nat)> := map[];
    for gi := 0 to |groups|
      invariant forall ch :: ch in accum ==> accum[ch].1 <= gi
      invariant SumOver(accum, accum.Keys) == SumDistinct(groups[..gi])
    {
      assert groups[..gi + 1][..gi] == groups[..gi];
      accum := CountGroup(accum, gi + 1, groups[gi], SumDistinct(groups[..gi]));
    }
    assert groups[..|groups|] == groups;
    total := SumCounts(accum);
  }

  /** The final `sum` over the map's counts. */
  method SumCounts(m: map<char, (nat, nat)>) returns (total: nat)
    ensures total == SumOver(m, m.Keys)
  {
    total := 0;
    var keys := m.Keys;
    while keys != {}
      invariant keys <= m.Keys
      invariant total + SumOver(m, keys) == SumOver(m, m.Keys)
      decreases |keys|
    {
      var k :| k in keys;
      SumOverRemove(m, keys, k);
      total := total + m[k].0;
      keys := keys - {k};
    }
  }

  // ---------------------------------------------------------------------
  // Questions everyone answered

  /** The number of the first `n` lines that contain `ch`. */
  function LinesWith(grp: seq<string>, n: nat, ch: char): nat
    requires n <= |grp|
  {
    if n == 0 then 0 else LinesWith(grp, n - 1, ch) + (if ch in grp[n - 1] then 1 else 0)
  }

  lemma {:induction false} LinesWithAll(grp: seq<string>, n: nat, ch: char)
    requires n <= |grp|
    ensures LinesWith(grp, n, ch) <= n
    ensures LinesWith(grp, n, ch) == n <==> forall i :: 0 <= i < n ==> ch in grp[i]
  {
    if n > 0 {
      LinesWithAll(grp, n - 1, ch);
    }
  }

  /** The characters on every line of a non-empty group. */
  function Common(grp: seq<string>): set<char>
    requires grp != []
  {
    set ch | ch in grp[0] && forall i :: 0 <= i < |grp| ==> ch in grp[i]
  }

  /** The answer `count_answers_for_group` gives: the characters on every
      line; a group with no lines has none. */
  function AllAnswered(grp: seq<string>): nat {
    if grp == [] then 0 else |Common(grp)|
  }

  /** The counts after the first `li` lines: the keys are the characters
      seen on them, each counting the lines it appears on. */
  ghost predicate AllInv(grp: seq<string>, li: nat, accum: map<char, nat>)
    requires li <= |grp|
  {
    && (forall ch :: ch in accum <==> ch in CharsOfLines(grp[..li]))
    && (forall ch :: ch in accum ==> accum[ch] == LinesWith(grp, li, ch))
  }

  /** Part way through line `li`: the characters in `done` are counted for it. */
  ghost predicate PartInv(grp: seq<string>, li: nat, accum: map<char, nat>, done: set<char>)
    requires li < |grp|
  {
    && (forall ch :: ch in accum <==> ch in CharsOfLines(grp[..li]) || ch in done)
    && (forall ch :: ch in accum ==> accum[ch] == LinesWith(grp, li, ch) + (if ch in done then 1 else 0))
  }

  lemma TallyStart(grp: seq<string>, li: nat, accum: map<char, nat>)
    requires li < |grp| && AllInv(grp, li, accum)
    ensures PartInv(grp, li, accum, {})
  {
  }

  lemma TallyStep(grp: seq<string>, li: nat, accum: map<char, nat>, done: set<char>, ch: char)
    requires li < |grp| && PartInv(grp, li, accum, done) && ch !in done
    ensures var cnt := if ch in accum then accum[ch] else 0;
      PartInv(grp, li, accum[ch := cnt + 1], done + {ch})
  {
    if ch !in accum {
      NotInLinesWith(grp, li, ch);
    }
  }

  lemma TallyEnd(grp: seq<string>, li: nat, accum: map<char, nat>)
    requires li < |grp| && PartInv(grp, li, accum, CharsOf(grp[li]))
    ensures AllInv(grp, li + 1, accum)
  {
    assert grp[..li + 1][..li] == grp[..li];
    assert CharsOfLines(grp[..li + 1]) == CharsOfLines(grp[..li]) + CharsOf(grp[li]);
  }

  /** One line: each of its distinct characters bumps its count once. */
  method TallyLine(grp: seq<string>, li: nat, accum0: map<char, nat>) returns (accum: map<char, nat>)
    requires li < |grp| && AllInv(grp, li, accum0)
    ensures AllInv(grp, li + 1, accum)
  {
    accum := accum0;
    var recChars := CharsOf(grp[li]);
    ghost var done: set<char> := {};
    TallyStart(grp, li, accum);
    while recChars != {}
      invariant recChars + done == CharsOf(grp[li]) && recChars !! done
      invariant PartInv(grp, li, accum, done)
      decreases |recChars|
    {
      var ch :| ch in recChars;
      var cnt := if ch in accum then accum[ch] else 0;
      TallyStep(grp, li, accum, done, ch);
      accum := accum[ch := cnt + 1];
      recChars := recChars - {ch};
      done := done + {ch};
    }
    TallyEnd(grp, li, accum);
  }

  /** `count_answers_for_group`: per line, each distinct character bumps
      its count (the sort and dedup); the characters whose count equals the
      number of lines are counted. */
  method CountAnswersForGroup(grp: seq<string>) returns (n: nat)
    ensures n == AllAnswered(grp)
  {
    var recordCount := 0;
    var accum: map<char, nat> := map[];
    for li := 0 to |grp|
      invariant recordCount == li
      invariant AllInv(grp, li, accum)
    {
      accum := TallyLine(grp, li, accum);
      recordCount := recordCount + 1;
    }
    n := |(set ch | ch in accum && accum[ch] == recordCount)|;
    FullCounts(grp, accum);
  }

  /** Counting the characters whose count is the number of lines gives the
      common characters. */
  lemma FullCounts(grp: seq<string>, accum: map<char, nat>)
    requires AllInv(grp, |grp|, accum)
    ensures |(set ch | ch in accum && accum[ch] == |grp|)| == AllAnswered(grp)
  {
    assert grp[..|grp|] == grp;
    if grp != [] {
      forall ch ensures (ch in accum && accum[ch] == |grp|) <==> ch in Common(grp) {
        LinesWithAll(grp, |grp|, ch);
        if ch in Common(grp) {
          CharsOfLinesHas(grp, |grp|, 0, ch);
        }
      }
      assert (set ch | ch in accum && accum[ch] == |grp|) == Common(grp);
    }
  }

  lemma {:induction false} NotInLinesWith(grp: seq<string>, n: nat, ch: char)
    requires n <= |grp| && ch !in CharsOfLines(grp[..n])
    ensures LinesWith(grp, n, ch) == 0
  {
    if n > 0 {
      assert grp[..n][..n - 1] == grp[..n - 1];
      NotInLinesWith(grp, n - 1, ch);
    }
  }

  lemma {:induction false} CharsOfLinesHas(grp: seq<string>, n: nat, i: nat, ch: char)
    requires i < n <= |grp| && ch in grp[i]
    ensures ch in CharsOfLines(grp[..n])
  {
    assert grp[..n][..n - 1] == grp[..n - 1];
    if i < n - 1 {
      CharsOfLinesHas(grp, n - 1, i, ch);
    }
  }

  /** `count_answers_for_all`: the per-group answers summed. */
  function CountAnswersForAll(groups: seq<seq<string>>): (n: nat)
    ensures n <= SumDistinct(groups)
  {
    if groups == [] then 0
    else
      var last := groups[|groups| - 1];
      assert AllAnswered(last) <= |CharsOfLines(last)| by {
        if last != [] {
          assert Common(last) <= CharsOfLines(last) by {
            forall ch | ch in Common(last) ensures ch in CharsOfLines(last) {
              CharsOfLinesHas(last, |last|, 0, ch);
              assert last[..|last|] == last;
            }
          }
          SubsetCard(Common(last), CharsOfLines(last));
        }
      }
      CountAnswersForAll(groups[..|groups| - 1]) + AllAnswered(last)
  }

  lemma SubsetCard(a: set<char>, b: set<char>)
    requires a <= b
    ensures |a| <= |b|
  {
    assert b == a + (b - a);
  }

  /** The unit test: lines "ab" and "ac" share only 'a'. */
  lemma GroupExample()
    ensures AllAnswered(["ab", "ac"]) == 1
  {
    var grp := ["ab", "ac"];
    assert 'a' in Common(grp);
    assert Common(grp) == {'a'} by {
      forall ch | ch in Common(grp) ensures ch == 'a' {
        assert ch in grp[0] && ch in grp[1];
      }
    }
  }
}
