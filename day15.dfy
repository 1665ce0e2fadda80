/** Day 15: the memory game.  The starting numbers are spoken first, one
    per turn; after them each player considers the number spoken last and
    says 0 if that was its first utterance, otherwise how many turns apart
    its last two utterances were.  `solve` keeps, per number, the last turn
    it was spoken (and the one before), and answers the number spoken on the
    final turn. */
module MemoryGame {
  import opened Outcomes

  // ---------------------------------------------------------------------
  // The history of the game.

  /** The turn (counted from 1) on which `v` was last spoken in `h`; 0 when
      it was never spoken. */
  function LastTurn(h: seq<nat>, v: nat): (r: nat)
    ensures r <= |h|
    ensures r > 0 ==> h[r - 1] == v
  {
    if h == [] then 0
    else if h[|h| - 1] == v then |h|
    else LastTurn(h[..|h| - 1], v)
  }

  /** The turn before that, on which `v` had been spoken last; 0 when `v`
      was spoken at most once. */
  function PrevTurn(h: seq<nat>, v: nat): (r: nat)
    ensures r > 0 ==> r < LastTurn(h, v) && h[r - 1] == v
  {
    if h == [] then 0
    else if h[|h| - 1] == v then LastTurn(h[..|h| - 1], v)
    else PrevTurn(h[..|h| - 1], v)
  }

  /** `v` is not spoken after its last turn. */
  lemma {:induction false} LastTurnIsLast(h: seq<nat>, v: nat, k: nat)
    requires LastTurn(h, v) <= k < |h|
    ensures h[k] != v
  {
    if k < |h| - 1 {
      LastTurnIsLast(h[..|h| - 1], v, k);
    }
  }

  /** The last turn is pinned down by an utterance with none after it. */
  lemma {:induction false} LastTurnIs(h: seq<nat>, v: nat, t: nat)
    requires 0 < t <= |h| && h[t - 1] == v
    requires forall k :: t <= k < |h| ==> h[k] != v
    ensures LastTurn(h, v) == t
  {
    if t < |h| {
      LastTurnIs(h[..|h| - 1], v, t);
    }
  }

  /** Speaking one more number moves only that number's turns. */
  lemma LastTurnAppend(h: seq<nat>, x: nat, v: nat)
    ensures LastTurn(h + [x], v) == if v == x then |h| + 1 else LastTurn(h, v)
    ensures PrevTurn(h + [x], v) == if v == x then LastTurn(h, v) else PrevTurn(h, v)
  {
    assert (h + [x])[..|h|] == h;
  }

  /** The game's rule: after the history `h`, say 0 if its last number had
      not been spoken before, otherwise the distance between its last two
      turns. */
  function Say(h: seq<nat>): nat
    requires h != []
  {
    var before := PrevTurn(h, h[|h| - 1]);
    if before == 0 then 0 else |h| - before
  }

  /** The play of the `while` loop from history `h` up to turn `n`, where
      `b` is the turn the loop holds as the previous utterance of the last
      number (0 for none). */
  function Run(h: seq<nat>, b: nat, n: nat): (r: seq<nat>)
    requires b <= |h|
    ensures |r| == (if |h| >= n then |h| else n)
    decreases n - |h|
  {
    if |h| >= n then h
    else
      var x := if b == 0 then 0 else |h| - b;
      Run(h + [x], LastTurn(h, x), n)
  }

  /** The play keeps the history it starts from. */
  lemma {:induction false} RunPrefix(h: seq<nat>, b: nat, n: nat, i: nat)
    requires b <= |h| && i < |h|
    ensures Run(h, b, n)[i] == h[i]
    decreases n - |h|
  {
    if |h| < n {
      var x := if b == 0 then 0 else |h| - b;
      RunPrefix(h + [x], LastTurn(h, x), n, i);
    }
  }

  /** The numbers spoken on turns 1 to `n` (at least the starting numbers)
      as `solve` plays: a starting number is recorded with no previous
      turn, so the first turn after them always says 0. */
  function Said(start: seq<nat>, n: nat): seq<nat> {
    Run(start, 0, n)
  }

  /** `solve`'s answer: the number spoken on turn `n`, or the last starting
      number when `n` does not go past them. */
  function Answer(start: seq<nat>, n: nat): nat
    requires start != []
  {
    var h := Said(start, n);
    h[|h| - 1]
  }

  /** The game played by its rule from the first turn after the starting
      numbers on. */
  function Game(start: seq<nat>, n: nat): seq<nat>
    requires start != []
  {
    Run(start, PrevTurn(start, start[|start| - 1]), n)
  }

  // ---------------------------------------------------------------------
  // The program.

  /** The last turn `mem` holds for `v`, 0 when it holds none. */
  function Known(mem: map<nat, (nat, nat)>, v: nat): nat {
    if v in mem then mem[v].0 else 0
  }

  /** `mem` holds the last turn of every number of `h`, and nothing for
      the others. */
  ghost predicate Tracks(mem: map<nat, (nat, nat)>, h: seq<nat>) {
    forall v :: Known(mem, v) == LastTurn(h, v)
  }

  /** Recording `x` on the turn after `h` keeps `mem` in step. */
  lemma TracksAppend(mem: map<nat, (nat, nat)>, h: seq<nat>, x: nat, p: nat)
    requires Tracks(mem, h)
    ensures Tracks(mem[x := (|h| + 1, p)], h + [x])
  {
    forall v
      ensures Known(mem[x := (|h| + 1, p)], v) == LastTurn(h + [x], v)
    {
      LastTurnAppend(h, x, v);
    }
  }

  /** The first loop of `solve`: each starting number recorded as (its turn,
      0), a later copy overwriting an earlier one. */
  method Remember(start: seq<nat>) returns (mem: map<nat, (nat, nat)>)
    ensures Tracks(mem, start)
    ensures forall v :: v in mem ==> mem[v].1 == 0
  {
    mem := map[];
    for idx := 0 to |start|
      invariant Tracks(mem, start[..idx])
      invariant forall v :: v in mem ==> mem[v].1 == 0
    {
      assert start[..idx + 1] == start[..idx] + [start[idx]];
      TracksAppend(mem, start[..idx], start[idx], 0);
      mem := mem[start[idx] := (idx + 1, 0)];
    }
    assert start[..|start|] == start;
  }

  /** The `while` loop of `solve`, from the turn after `h0` up to turn
      `nTurns`; `tfp0` is the record of the last number spoken and `turn0`
      the first turn to play. */
  method PlayFrom(ghost h0: seq<nat>, mem0: map<nat, (nat, nat)>, prev0: nat, tfp0: (nat, nat),
                  turn0: nat, nTurns: nat)
    returns (r: nat)
    requires h0 != [] && Tracks(mem0, h0) && prev0 == h0[|h0| - 1] && turn0 == |h0| + 1
    requires tfp0.0 == |h0| && tfp0.1 < |h0|
    ensures var h := Run(h0, tfp0.1, nTurns); r == h[|h| - 1]
  {
    var mem: map<nat, (nat, nat)>, prev: nat, tfp: (nat, nat) := mem0, prev0, tfp0;
    var turn := turn0;
    ghost var h: seq<nat> := h0;
    while turn <= nTurns
      invariant turn == |h| + 1 && h != []
      invariant Tracks(mem, h) && prev == h[|h| - 1]
      invariant tfp.0 == |h| && tfp.1 < |h|
      invariant Run(h0, tfp0.1, nTurns) == Run(h, tfp.1, nTurns)
      decreases nTurns + 1 - turn
    {
      var toSay := if tfp.1 == 0 then 0 else tfp.0 - tfp.1;
      assert Run(h, tfp.1, nTurns) == Run(h + [toSay], LastTurn(h, toSay), nTurns);
      if toSay in mem {
        tfp := (turn, mem[toSay].0);
      } else {
        tfp := (turn, 0);
      }
      assert tfp.1 == Known(mem, toSay);
      TracksAppend(mem, h, toSay, tfp.1);
      mem := mem[toSay := tfp];
      prev := toSay;
      h := h + [toSay];
      turn := turn + 1;
    }
    return prev;
  }

  /** `solve`: an empty list of starting numbers panics on its last
      element; otherwise the number spoken on turn `nTurns`. */
  method Solve(input: seq<nat>, nTurns: nat) returns (r: Outcome<nat>)
    ensures input == [] ==> r == Panic
    ensures input != [] ==> r == Done(Answer(input, nTurns))
  {
    if |input| == 0 {
      return Panic;
    }
    var mem := Remember(input);
    var prevValue := input[|input| - 1];
    assert Known(mem, prevValue) == |input|;
    var turnsForPrev := mem[prevValue];
    var v := PlayFrom(input, mem, prevValue, turnsForPrev, |input| + 1, nTurns);
    return Done(v);
  }

  // ---------------------------------------------------------------------
  // What the play promises.

  /** Before the first turn of play the answer is the last starting
      number. */
  lemma AnswerBeforePlay(start: seq<nat>, n: nat)
    requires start != [] && n <= |start|
    ensures Answer(start, n) == start[|start| - 1]
  {
  }

  /** The first turn played from `h` says what the rule says when `b`
      is truthful. */
  lemma RunFirstRule(h: seq<nat>, b: nat, n: nat)
    requires h != [] && b == PrevTurn(h, h[|h| - 1]) && |h| < n
    ensures Run(h, b, n)[|h|] == Say(h) && Run(h, b, n)[..|h|] == h
  {
    var x := if b == 0 then 0 else |h| - b;
    var h1 := h + [x];
    var b1 := LastTurn(h, x);
    var r := Run(h1, b1, n);
    assert Run(h, b, n) == r;
    forall i | 0 <= i < |h1|
      ensures r[i] == h1[i]
    {
      RunPrefix(h1, b1, n, i);
    }
  }

  /** Once the loop's record of the previous turn is truthful, every later
      turn follows the game's rule. */
  lemma {:induction false} RunFollowsRule(h: seq<nat>, b: nat, n: nat, k: nat)
    requires h != [] && b == PrevTurn(h, h[|h| - 1])
    requires |h| <= k < n
    ensures Run(h, b, n)[k] == Say(Run(h, b, n)[..k])
    decreases n - |h|
  {
    if k == |h| {
      RunFirstRule(h, b, n);
    } else {
      var x := if b == 0 then 0 else |h| - b;
      LastTurnAppend(h, x, x);
      assert Run(h, b, n) == Run(h + [x], LastTurn(h, x), n);
      RunFollowsRule(h + [x], LastTurn(h, x), n, k);
    }
  }

  /** The game follows its rule on every turn after the starting
      numbers. */
  lemma GameFollowsRule(start: seq<nat>, n: nat, t: nat)
    requires start != [] && |start| < t <= n
    ensures var g := Game(start, n); g[t - 1] == Say(g[..t - 1])
  {
    RunFollowsRule(start, PrevTurn(start, start[|start| - 1]), n, t - 1);
  }

  /** As `solve` plays, the first turn after the starting numbers says 0
      and every turn after that follows the game's rule. */
  lemma SaidFollowsRule(start: seq<nat>, n: nat, t: nat)
    requires start != [] && |start| < t <= n
    ensures var s := Said(start, n);
      s[|start|] == 0 && (t > |start| + 1 ==> s[t - 1] == Say(s[..t - 1]))
  {
    var h1 := start + [0];
    var b1 := LastTurn(start, 0);
    LastTurnAppend(start, 0, 0);
    assert Said(start, n) == Run(h1, b1, n);
    RunPrefix(h1, b1, n, |start|);
    if t > |start| + 1 {
      RunFollowsRule(h1, b1, n, t - 1);
    }
  }

  /** A number said during play is less than the number of its turn: a
      distance between two earlier turns, or 0. */
  lemma {:induction false} RunBelowTurn(h: seq<nat>, b: nat, n: nat, k: nat)
    requires h != [] && b <= |h| && |h| <= k < n
    ensures Run(h, b, n)[k] < k + 1
    decreases n - |h|
  {
    var x := if b == 0 then 0 else |h| - b;
    var h1 := h + [x];
    var b1 := LastTurn(h, x);
    assert Run(h, b, n) == Run(h1, b1, n);
    if k == |h| {
      RunPrefix(h1, b1, n, k);
    } else {
      RunBelowTurn(h1, b1, n, k);
    }
  }

  /** Every number `solve` says on turn `t` after the starting numbers is
      below `t`. */
  lemma SaidBelowTurn(start: seq<nat>, n: nat, t: nat)
    requires start != [] && |start| < t <= n
    ensures Said(start, n)[t - 1] < t
  {
    RunBelowTurn(start, 0, n, t - 1);
  }

  /** When the last starting number is not among the others, `solve` plays
      the game exactly. */
  lemma FreshLastAgrees(start: seq<nat>, n: nat)
    requires start != [] && start[|start| - 1] !in start[..|start| - 1]
    ensures Said(start, n) == Game(start, n)
  {
  }

  /** Starting numbers that are all different never trip the program. */
  lemma DistinctStartsAgree(start: seq<nat>, n: nat)
    requires start != []
    requires forall i, j :: 0 <= i < j < |start| ==> start[i] != start[j]
    ensures Said(start, n) == Game(start, n)
  {
    FreshLastAgrees(start, n);
  }

  /** The starting numbers 1, 1: by the game's rule turn 3 says 1 (the 1 was
      spoken on turns 1 and 2), but `solve` says 0 and answers 0 for three
      turns. */
  lemma DuplicateStartDiverges(start: seq<nat>)
    requires start == [1, 1]
    ensures Say(start) == 1
    ensures Said(start, 3)[2] == 0 && Answer(start, 3) == 0
    ensures Game(start, 3)[2] == 1
  {
    assert start[..1] == [1];
    assert PrevTurn(start, 1) == 1;
    SaidFollowsRule(start, 3, 3);
    GameFollowsRule(start, 3, 3);
    var g := Game(start, 3);
    RunPrefix(start, 1, 3, 0);
    RunPrefix(start, 1, 3, 1);
    assert g[..2] == start;
  }

  // ---------------------------------------------------------------------
  // The evident intent: a repeated starting number keeps its previous turn.

  /** The first loop recording each starting number with the turn it was
      last spoken before. */
  method RememberFixed(start: seq<nat>) returns (mem: map<nat, (nat, nat)>)
    ensures Tracks(mem, start)
    ensures forall v :: v in mem ==> mem[v].1 == PrevTurn(start, v)
  {
    mem := map[];
    for idx := 0 to |start|
      invariant Tracks(mem, start[..idx])
      invariant forall v :: v in mem ==> mem[v].1 == PrevTurn(start[..idx], v)
    {
      var h, x := start[..idx], start[idx];
      assert start[..idx + 1] == h + [x];
      var before := if x in mem then mem[x].0 else 0;
      assert before == LastTurn(h, x);
      TracksAppend(mem, h, x, before);
      forall v | v in mem[x := (idx + 1, before)] {
        LastTurnAppend(h, x, v);
      }
      mem := mem[x := (idx + 1, before)];
    }
    assert start[..|start|] == start;
  }

  /** `solve` with the corrected first loop: it plays the game by its rule
      on every turn. */
  method SolveFixed(input: seq<nat>, nTurns: nat) returns (r: Outcome<nat>)
    ensures input == [] ==> r == Panic
    ensures input != [] ==> r == Done(Game(input, nTurns)[|Game(input, nTurns)| - 1])
  {
    if |input| == 0 {
      return Panic;
    }
    var mem := RememberFixed(input);
    var prevValue := input[|input| - 1];
    assert Known(mem, prevValue) == |input|;
    var turnsForPrev := mem[prevValue];
    var v := PlayFrom(input, mem, prevValue, turnsForPrev, |input| + 1, nTurns);
    return Done(v);
  }

  // ---------------------------------------------------------------------
  // The puzzle's opening.

  /** A number never spoken has no last turn. */
  lemma {:induction false} LastTurnAbsent(h: seq<nat>, v: nat)
    requires forall k :: 0 <= k < |h| ==> h[k] != v
    ensures LastTurn(h, v) == 0
  {
    if h != [] {
      LastTurnAbsent(h[..|h| - 1], v);
    }
  }

  /** From 0, 3, 6 the first ten turns say 0, 3, 6, 0, 3, 3, 1, 0, 4, 0. */
  lemma OpeningExample(start: seq<nat>)
    requires start == [0, 3, 6]
    ensures Said(start, 10) == [0, 3, 6, 0, 3, 3, 1, 0, 4, 0]
  {
    var h0 := start;
    LastTurnIs(h0, 0, 1);
    var h1 := h0 + [0];
    LastTurnIs(h1, 3, 2);
    var h2 := h1 + [3];
    LastTurnIs(h2, 3, 5);
    var h3 := h2 + [3];
    LastTurnAbsent(h3, 1);
    var h4 := h3 + [1];
    LastTurnIs(h4, 0, 4);
    var h5 := h4 + [0];
    LastTurnAbsent(h5, 4);
    var h6 := h5 + [4];
    LastTurnIs(h6, 0, 8);
    var h7 := h6 + [0];
    calc {
      Said(start, 10);
      Run(h0, 0, 10);
      Run(h1, 1, 10);
      Run(h2, 2, 10);
      Run(h3, 5, 10);
      Run(h4, 0, 10);
      Run(h5, 4, 10);
      Run(h6, 0, 10);
      Run(h7, 8, 10);
    }
  }
}
