/** Day 8: a boot-code machine whose instructions count their own
    executions, and the search for the one jmp/nop swap that lets it exit
    (8/src/main.rs). */
module HandheldHalting {
  import opened Outcomes

  /** An instruction and how many times it has run. */
  datatype Instr = Instr(op: string, operand: int, execCount: nat)

  /** `Instr::reset`. */
  function Reset(ins: Instr): Instr {
    ins.(execCount := 0)
  }

  /** `Instr::switch_to`. */
  function SwitchTo(ins: Instr, op: string): Instr {
    ins.(op := op)
  }

  /** The two programs hold the same instructions, whatever their counts. */
  predicate SameCode(a: seq<Instr>, b: seq<Instr>) {
    |a| == |b| && forall i :: 0 <= i < |a| ==> a[i].op == b[i].op && a[i].operand == b[i].operand
  }

  /** How a run ends when it does not panic: `normal` is true when the
      instruction pointer reached the end of the program. */
  datatype Exit = Exit(normal: bool, acc: int)

  /** The outcome of `run_program` and the program it leaves behind. */
  datatype Final = Final(outcome: Outcome<Exit>, prog: seq<Instr>)

  /** The executions an instruction has left before it reaches the limit. */
  function Slack(ins: Instr, limit: nat): nat {
    if ins.execCount < limit then limit - ins.execCount else 0
  }

  /** The executions the whole program has left: every step spends one. */
  function Budget(prog: seq<Instr>, limit: nat): nat {
    if prog == [] then 0 else Budget(prog[..|prog| - 1], limit) + Slack(prog[|prog| - 1], limit)
  }

  lemma {:induction false} BudgetUpdate(prog: seq<Instr>, limit: nat, i: nat, x: Instr)
    requires i < |prog|
    ensures Budget(prog[i := x], limit) + Slack(prog[i], limit) == Budget(prog, limit) + Slack(x, limit)
  {
    var n := |prog|;
    if i == n - 1 {
      assert prog[i := x][..n - 1] == prog[..n - 1];
    } else {
      assert prog[i := x][..n - 1] == prog[..n - 1][i := x];
      BudgetUpdate(prog[..n - 1], limit, i, x);
    }
  }

  /** The instruction after one more execution. */
  function Bump(ins: Instr): Instr {
    ins.(execCount := ins.execCount + 1)
  }

  /** Executing an instruction that is below the limit spends one unit of
      the budget. */
  lemma BumpSpends(prog: seq<Instr>, limit: nat, ip: nat)
    requires ip < |prog| && prog[ip].execCount < limit
    ensures Budget(prog[ip := Bump(prog[ip])], limit) + 1 == Budget(prog, limit)
  {
    BudgetUpdate(prog, limit, ip, Bump(prog[ip]));
  }

  datatype Config = Config(ip: int, acc: int)

  /** One instruction: acc adds its operand and moves on, jmp adds its
      operand to the instruction pointer, nop moves on; anything else fails. */
  function Step(prog: seq<Instr>, c: Config): Outcome<Config>
    requires 0 <= c.ip < |prog|
  {
    var ins := prog[c.ip];
    if ins.op == "acc" then Done(Config(c.ip + 1, c.acc + ins.operand))
    else if ins.op == "jmp" then Done(Config(c.ip + ins.operand, c.acc))
    else if ins.op == "nop" then Done(Config(c.ip + 1, c.acc))
    else Panic
  }

  /** `run_program` from instruction pointer `ip` and accumulator `acc`:
      it stops normally at the end of the program, stops with a fault at an
      instruction already run `limit` times, and panics on an instruction
      pointer outside the program (the cast and `unwrap`) or an unknown
      operation.  Otherwise it counts the execution, then runs it. */
  function Run(prog: seq<Instr>, limit: nat, ip: int, acc: int): Final
    decreases Budget(prog, limit)
  {
    if ip == |prog| then Final(Done(Exit(true, acc)), prog)
    else if ip < 0 || ip > |prog| then Final(Panic, prog)
    else if prog[ip].execCount >= limit then Final(Done(Exit(false, acc)), prog)
    else
      var next := prog[ip := Bump(prog[ip])];
      BumpSpends(prog, limit, ip);
      var s := Step(prog, Config(ip, acc));
      if s.Done? then Run(next, limit, s.value.ip, s.value.acc) else Final(Panic, next)
  }

  /** `run_program`, updating the counters of `prog` in place. */
  method RunProgram(prog: array<Instr>, limit: nat) returns (r: Outcome<Exit>)
    modifies prog
    ensures Run(old(prog[..]), limit, 0, 0) == Final(r, prog[..])
  {
    var ip: int := 0;
    var acc: int := 0;
    ghost var cur := prog[..];
    while true
      invariant cur == prog[..]
      invariant Run(old(prog[..]), limit, 0, 0) == Run(cur, limit, ip, acc)
      decreases Budget(cur, limit)
    {
      if ip == prog.Length {
        return Done(Exit(true, acc));
      }
      if ip < 0 || ip > prog.Length {
        return Panic;
      }
      var ins := prog[ip];
      if ins.execCount >= limit {
        return Done(Exit(false, acc));
      }
      RunOnce(cur, limit, ip, acc);
      prog[ip] := Instr(ins.op, ins.operand, ins.execCount + 1);
      cur := cur[ip := Bump(ins)];
      if ins.op == "acc" {
        acc := acc + ins.operand;
        ip := ip + 1;
      } else if ins.op == "jmp" {
        ip := ip + ins.operand;
      } else if ins.op == "nop" {
        ip := ip + 1;
      } else {
        return Panic;
      }
    }
  }

  /** One executed instruction of `Run`, operation by operation, and the
      budget it spends. */
  lemma RunOnce(cur: seq<Instr>, limit: nat, ip: int, acc: int)
    requires 0 <= ip < |cur| && cur[ip].execCount < limit
    ensures Budget(cur[ip := Bump(cur[ip])], limit) < Budget(cur, limit)
    ensures cur[ip].op == "acc" ==>
      Run(cur, limit, ip, acc) == Run(cur[ip := Bump(cur[ip])], limit, ip + 1, acc + cur[ip].operand)
    ensures cur[ip].op == "jmp" ==>
      Run(cur, limit, ip, acc) == Run(cur[ip := Bump(cur[ip])], limit, ip + cur[ip].operand, acc)
    ensures cur[ip].op == "nop" ==>
      Run(cur, limit, ip, acc) == Run(cur[ip := Bump(cur[ip])], limit, ip + 1, acc)
    ensures cur[ip].op != "acc" && cur[ip].op != "jmp" && cur[ip].op != "nop" ==>
      Run(cur, limit, ip, acc) == Final(Panic, cur[ip := Bump(cur[ip])])
  {
    BumpSpends(cur, limit, ip);
  }

  /** A run never changes an operation or an operand, and it never raises a
      counter that was already at the limit. */
  lemma {:induction false} RunKeepsCode(prog: seq<Instr>, limit: nat, ip: int, acc: int)
    ensures SameCode(prog, Run(prog, limit, ip, acc).prog)
    ensures forall i :: 0 <= i < |prog| ==> prog[i].execCount <= Run(prog, limit, ip, acc).prog[i].execCount
    ensures forall i :: 0 <= i < |prog| ==> Run(prog, limit, ip, acc).prog[i].execCount <= Cap(prog[i], limit)
    ensures Run(prog, limit, ip, acc).outcome != OutOfFuel
    decreases Budget(prog, limit)
  {
    if 0 <= ip < |prog| && prog[ip].execCount < limit {
      BumpSpends(prog, limit, ip);
      var next := prog[ip := Bump(prog[ip])];
      var s := Step(prog, Config(ip, acc));
      if s.Done? {
        RunKeepsCode(next, limit, s.value.ip, s.value.acc);
        assert forall i :: 0 <= i < |prog| ==> Cap(next[i], limit) == Cap(prog[i], limit);
      }
    }
  }

  /** The highest count a run can leave on `ins`: the limit, unless the
      count is already beyond it. */
  function Cap(ins: Instr, limit: nat): nat {
    if ins.execCount < limit then limit else ins.execCount
  }

  /** The configuration after `n` steps from the start, or `Panic` once a
      step fails or the pointer has left the program. */
  function Exec(prog: seq<Instr>, n: nat): Outcome<Config> {
    if n == 0 then Done(Config(0, 0))
    else
      var prev := Exec(prog, n - 1);
      if prev.Done? && 0 <= prev.value.ip < |prog| then Step(prog, prev.value) else Panic
  }

  /** How many of the first `n` steps ran instruction `i`. */
  function Visits(prog: seq<Instr>, i: int, n: nat): nat {
    if n == 0 then 0
    else Visits(prog, i, n - 1) + (if Exec(prog, n - 1).Done? && Exec(prog, n - 1).value.ip == i then 1 else 0)
  }

  /** Step `j` runs an instruction of the program that, counting its
      initial count, has run fewer than `limit` times before. */
  predicate Allowed(prog: seq<Instr>, limit: nat, j: nat) {
    var c := Exec(prog, j);
    c.Done? && 0 <= c.value.ip < |prog| && prog[c.value.ip].execCount + Visits(prog, c.value.ip, j) < limit
  }

  /** The number of instructions a run executes (counts it raises). */
  function Steps(prog: seq<Instr>, limit: nat, ip: int, acc: int): nat
    decreases Budget(prog, limit)
  {
    if 0 <= ip < |prog| && prog[ip].execCount < limit then
      var next := prog[ip := Bump(prog[ip])];
      BumpSpends(prog, limit, ip);
      var s := Step(prog, Config(ip, acc));
      if s.Done? then 1 + Steps(next, limit, s.value.ip, s.value.acc) else 1
    else 0
  }

  /** Execution always ends: it runs at most as many instructions as the
      budget the counters leave. */
  lemma {:induction false} StepsBounded(prog: seq<Instr>, limit: nat, ip: int, acc: int)
    ensures Steps(prog, limit, ip, acc) <= Budget(prog, limit)
    decreases Budget(prog, limit)
  {
    if 0 <= ip < |prog| && prog[ip].execCount < limit {
      BumpSpends(prog, limit, ip);
      var s := Step(prog, Config(ip, acc));
      if s.Done? {
        StepsBounded(prog[ip := Bump(prog[ip])], limit, s.value.ip, s.value.acc);
      }
    }
  }

  /** What holds after `k` steps of a run of `prog0`: the current program
      has the same code, its counters are the initial ones plus the visits
      so far, and every step so far was allowed. */
  predicate Reached(prog0: seq<Instr>, limit: nat, k: nat, cur: seq<Instr>, ip: int, acc: int) {
    && SameCode(prog0, cur)
    && Exec(prog0, k) == Done(Config(ip, acc))
    && (forall i :: 0 <= i < |prog0| ==> cur[i].execCount == prog0[i].execCount + Visits(prog0, i, k))
    && (forall j :: 0 <= j < k ==> Allowed(prog0, limit, j))
  }

  /** One allowed step keeps `Reached`. */
  lemma ReachedStep(prog0: seq<Instr>, limit: nat, k: nat, cur: seq<Instr>, ip: int, acc: int, c: Config)
    requires Reached(prog0, limit, k, cur, ip, acc)
    requires 0 <= ip < |cur| && cur[ip].execCount < limit
    requires Step(prog0, Config(ip, acc)) == Done(c)
    ensures Allowed(prog0, limit, k)
    ensures Reached(prog0, limit, k + 1, cur[ip := Bump(cur[ip])], c.ip, c.acc)
  {
    var next := cur[ip := Bump(cur[ip])];
    assert Exec(prog0, k + 1) == Done(c);
    forall i | 0 <= i < |prog0|
      ensures next[i].execCount == prog0[i].execCount + Visits(prog0, i, k + 1)
    {
    }
    forall j | 0 <= j < k + 1
      ensures Allowed(prog0, limit, j)
    {
    }
  }

  /** A run that ends as `f` after `n` steps of `prog0` agrees with the
      reference machine: each step was allowed, every counter grew by the
      visits to its instruction, and the run ends as the machine stands. */
  predicate Accounts(prog0: seq<Instr>, limit: nat, n: nat, f: Final) {
    Traced(prog0, limit, n, f) && EndsAs(prog0, limit, n, f.outcome)
  }

  /** Each of the first `n` steps was allowed and the counters of `f` are
      the initial ones plus the visits. */
  predicate Traced(prog0: seq<Instr>, limit: nat, n: nat, f: Final) {
    && |f.prog| == |prog0|
    && (forall j :: 0 <= j < n ==> Allowed(prog0, limit, j))
    && (forall i :: 0 <= i < |prog0| ==> f.prog[i].execCount == prog0[i].execCount + Visits(prog0, i, n))
  }

  /** The outcome matches the machine after `n` steps. */
  predicate EndsAs(prog0: seq<Instr>, limit: nat, n: nat, r: Outcome<Exit>) {
    && (r.Done? ==> Ends(prog0, limit, n, r.value))
    && (r.Panic? ==> Fails(prog0, n))
  }

  /** A run ending with `e` after `n` steps: the machine's pointer is at
      the end of the program exactly for a normal exit; a fault points at an
      instruction that has used up its limit. */
  predicate Ends(prog0: seq<Instr>, limit: nat, n: nat, e: Exit) {
    var c := Exec(prog0, n);
    && c.Done?
    && c.value.acc == e.acc
    && (e.normal <==> c.value.ip == |prog0|)
    && (!e.normal ==> 0 <= c.value.ip < |prog0| && prog0[c.value.ip].execCount + Visits(prog0, c.value.ip, n) >= limit)
  }

  /** A panicking run: the machine itself fails after `n` steps, or its
      pointer lies outside the program and is not its end. */
  predicate Fails(prog0: seq<Instr>, n: nat) {
    var c := Exec(prog0, n);
    c.Panic? || (c.Done? && (c.value.ip < 0 || c.value.ip > |prog0|))
  }

  /** A run that stops without executing anything accounts for itself. */
  lemma ReachedStops(prog0: seq<Instr>, limit: nat, k: nat, cur: seq<Instr>, ip: int, acc: int)
    requires Reached(prog0, limit, k, cur, ip, acc)
    requires !(0 <= ip < |cur| && cur[ip].execCount < limit)
    ensures Steps(cur, limit, ip, acc) == 0
    ensures Traced(prog0, limit, k, Run(cur, limit, ip, acc))
    ensures EndsAs(prog0, limit, k, Run(cur, limit, ip, acc).outcome)
  {
  }

  /** A step that panics ends the run, accounted for. */
  lemma ReachedPanic(prog0: seq<Instr>, limit: nat, k: nat, cur: seq<Instr>, ip: int, acc: int)
    requires Reached(prog0, limit, k, cur, ip, acc)
    requires 0 <= ip < |cur| && cur[ip].execCount < limit
    requires Step(prog0, Config(ip, acc)).Panic?
    ensures Steps(cur, limit, ip, acc) == 1
    ensures Traced(prog0, limit, k + 1, Run(cur, limit, ip, acc))
    ensures EndsAs(prog0, limit, k + 1, Run(cur, limit, ip, acc).outcome)
  {
    var next := cur[ip := Bump(cur[ip])];
    SameStep(prog0, cur, Config(ip, acc));
    assert Run(cur, limit, ip, acc) == Final(Panic, next);
    assert Exec(prog0, k + 1).Panic?;
    forall i | 0 <= i < |prog0|
      ensures next[i].execCount == prog0[i].execCount + Visits(prog0, i, k + 1)
    {
    }
    forall j | 0 <= j < k + 1
      ensures Allowed(prog0, limit, j)
    {
    }
  }

  /** The counters follow the reference machine: a run of `cur`, reached
      after `k` steps of `prog0`, is traced for `k + Steps` steps. */
  lemma {:induction false} RunTraced(prog0: seq<Instr>, limit: nat, k: nat, cur: seq<Instr>, ip: int, acc: int)
    returns (n: nat, f: Final)
    requires Reached(prog0, limit, k, cur, ip, acc)
    ensures n == k + Steps(cur, limit, ip, acc) && f == Run(cur, limit, ip, acc)
    ensures Traced(prog0, limit, n, f)
    decreases Budget(cur, limit), 1
  {
    if 0 <= ip < |cur| && cur[ip].execCount < limit {
      n, f := RunTracedStep(prog0, limit, k, cur, ip, acc);
    } else {
      ReachedStops(prog0, limit, k, cur, ip, acc);
      n, f := k, Run(cur, limit, ip, acc);
    }
  }

  /** `RunTraced` when the run executes the instruction at `ip`. */
  lemma {:induction false} RunTracedStep(prog0: seq<Instr>, limit: nat, k: nat, cur: seq<Instr>, ip: int, acc: int)
    returns (n: nat, f: Final)
    requires Reached(prog0, limit, k, cur, ip, acc)
    requires 0 <= ip < |cur| && cur[ip].execCount < limit
    ensures n == k + Steps(cur, limit, ip, acc) && f == Run(cur, limit, ip, acc)
    ensures Traced(prog0, limit, n, f)
    decreases Budget(cur, limit), 0
  {
    BumpSpends(cur, limit, ip);
    SameStep(prog0, cur, Config(ip, acc));
    var s := Step(prog0, Config(ip, acc));
    if s.Done? {
      ReachedStep(prog0, limit, k, cur, ip, acc, s.value);
      n, f := RunTraced(prog0, limit, k + 1, cur[ip := Bump(cur[ip])], s.value.ip, s.value.acc);
      RunUnfold(cur, limit, ip, acc, s.value);
    } else {
      ReachedPanic(prog0, limit, k, cur, ip, acc);
      n, f := k + 1, Run(cur, limit, ip, acc);
    }
  }

  /** The outcome of a run of `cur`, reached after `k` steps of `prog0`, is
      how the machine stands after `k + Steps` steps. */
  lemma {:induction false} RunEndsAs(prog0: seq<Instr>, limit: nat, k: nat, cur: seq<Instr>, ip: int, acc: int)
    returns (n: nat, r: Outcome<Exit>)
    requires Reached(prog0, limit, k, cur, ip, acc)
    ensures n == k + Steps(cur, limit, ip, acc) && r == Run(cur, limit, ip, acc).outcome
    ensures EndsAs(prog0, limit, n, r)
    decreases Budget(cur, limit), 1
  {
    if 0 <= ip < |cur| && cur[ip].execCount < limit {
      n, r := RunEndsAsStep(prog0, limit, k, cur, ip, acc);
    } else {
      ReachedStops(prog0, limit, k, cur, ip, acc);
      n, r := k, Run(cur, limit, ip, acc).outcome;
    }
  }

  /** `RunEndsAs` when the run executes the instruction at `ip`. */
  lemma {:induction false} RunEndsAsStep(prog0: seq<Instr>, limit: nat, k: nat, cur: seq<Instr>, ip: int, acc: int)
    returns (n: nat, r: Outcome<Exit>)
    requires Reached(prog0, limit, k, cur, ip, acc)
    requires 0 <= ip < |cur| && cur[ip].execCount < limit
    ensures n == k + Steps(cur, limit, ip, acc) && r == Run(cur, limit, ip, acc).outcome
    ensures EndsAs(prog0, limit, n, r)
    decreases Budget(cur, limit), 0
  {
    BumpSpends(cur, limit, ip);
    SameStep(prog0, cur, Config(ip, acc));
    var s := Step(prog0, Config(ip, acc));
    if s.Done? {
      ReachedStep(prog0, limit, k, cur, ip, acc, s.value);
      n, r := RunEndsAs(prog0, limit, k + 1, cur[ip := Bump(cur[ip])], s.value.ip, s.value.acc);
      RunUnfold(cur, limit, ip, acc, s.value);
    } else {
      ReachedPanic(prog0, limit, k, cur, ip, acc);
      n, r := k + 1, Run(cur, limit, ip, acc).outcome;
    }
  }

  /** Programs with the same code step alike. */
  lemma SameStep(prog0: seq<Instr>, cur: seq<Instr>, c: Config)
    requires SameCode(prog0, cur) && 0 <= c.ip < |cur|
    ensures Step(prog0, c) == Step(cur, c)
  {
  }

  /** One executed step of `Run` and of `Steps`. */
  lemma RunUnfold(cur: seq<Instr>, limit: nat, ip: int, acc: int, c: Config)
    requires 0 <= ip < |cur| && cur[ip].execCount < limit
    requires Step(cur, Config(ip, acc)) == Done(c)
    ensures Run(cur, limit, ip, acc) == Run(cur[ip := Bump(cur[ip])], limit, c.ip, c.acc)
    ensures Steps(cur, limit, ip, acc) == 1 + Steps(cur[ip := Bump(cur[ip])], limit, c.ip, c.acc)
  {
  }

  /** `run_program` from the start, in terms of the reference machine. */
  lemma RunMeaning(prog: seq<Instr>, limit: nat)
    ensures Accounts(prog, limit, Steps(prog, limit, 0, 0), Run(prog, limit, 0, 0))
    ensures Run(prog, limit, 0, 0).outcome != OutOfFuel
  {
    assert Exec(prog, 0) == Done(Config(0, 0));
    assert forall i :: 0 <= i < |prog| ==> Visits(prog, i, 0) == 0;
    assert Reached(prog, limit, 0, prog, 0, 0);
    var n, f := RunTraced(prog, limit, 0, prog, 0, 0);
    var n', r := RunEndsAs(prog, limit, 0, prog, 0, 0);
    assert n' == n && r == f.outcome;
    RunKeepsCode(prog, limit, 0, 0);
  }

  /** With limit 1 on a freshly reset program, a fault happens exactly at
      the first instruction the machine reaches a second time. */
  lemma FaultIsFirstRepeat(prog: seq<Instr>, acc: int)
    requires forall i :: 0 <= i < |prog| ==> prog[i].execCount == 0
    requires Run(prog, 1, 0, 0).outcome == Done(Exit(false, acc))
    ensures var n := Steps(prog, 1, 0, 0);
      && Exec(prog, n).Done? && Exec(prog, n).value.acc == acc
      && 0 <= Exec(prog, n).value.ip < |prog|
      && Visits(prog, Exec(prog, n).value.ip, n) >= 1
      && (forall j :: 0 <= j < n ==> Exec(prog, j).Done? && Visits(prog, Exec(prog, j).value.ip, j) == 0)
  {
    RunMeaning(prog, 1);
    var n := Steps(prog, 1, 0, 0);
    assert Ends(prog, 1, n, Exit(false, acc));
    forall j | 0 <= j < n
      ensures Exec(prog, j).Done? && Visits(prog, Exec(prog, j).value.ip, j) == 0
    {
      assert Allowed(prog, 1, j);
    }
  }

  // ---------------------------------------------------------------------
  // Resetting and fixing.

  /** Every counter back to zero. */
  function ResetAll(prog: seq<Instr>): (r: seq<Instr>) {
    seq(|prog|, i requires 0 <= i < |prog| => Reset(prog[i]))
  }

  /** Resetting keeps the code and zeroes every counter; programs with the
      same code reset to the same program. */
  lemma ResetAllMeaning(a: seq<Instr>, b: seq<Instr>)
    ensures SameCode(a, ResetAll(a))
    ensures forall i :: 0 <= i < |a| ==> ResetAll(a)[i].execCount == 0
    ensures SameCode(a, b) ==> ResetAll(a) == ResetAll(b)
  {
  }

  /** `reset_program`, in place. */
  method ResetProgram(prog: array<Instr>)
    modifies prog
    ensures prog[..] == ResetAll(old(prog[..]))
  {
    for i := 0 to prog.Length
      invariant prog[..i] == ResetAll(old(prog[..]))[..i]
      invariant prog[i..] == old(prog[..])[i..]
    {
      prog[i] := Reset(prog[i]);
    }
  }

  /** The patch `fix_program` applies: jmp becomes nop, nop becomes jmp, and
      any other operation is left as it is. */
  function Flip(ins: Instr): Instr {
    if ins.op == "jmp" then SwitchTo(ins, "nop")
    else if ins.op == "nop" then SwitchTo(ins, "jmp")
    else ins
  }

  /** The copy tried for `offset`. */
  function Candidate(prog: seq<Instr>, offset: nat): seq<Instr>
    requires offset < |prog|
  {
    prog[offset := Flip(prog[offset])]
  }

  /** A candidate differs from the program at most in the one operation at
      `offset`, swapped between jmp and nop. */
  lemma CandidateFlipsOne(prog: seq<Instr>, offset: nat)
    requires offset < |prog|
    ensures |Candidate(prog, offset)| == |prog|
    ensures forall i :: 0 <= i < |prog| && i != offset ==> Candidate(prog, offset)[i] == prog[i]
    ensures Candidate(prog, offset)[offset].operand == prog[offset].operand
    ensures Candidate(prog, offset)[offset].execCount == prog[offset].execCount
    ensures prog[offset].op == "jmp" <==> Candidate(prog, offset)[offset].op == "nop"
    ensures prog[offset].op == "nop" <==> Candidate(prog, offset)[offset].op == "jmp"
  {
  }

  /** The result of `fix_program`: whether a fix was found, and the fixed
      program. */
  datatype Fixed = Fixed(ok: bool, prog: seq<Instr>)

  /** `fix_program` over the offsets from `offset` on: acc is skipped; the
      first candidate that exits normally with limit 1 is returned with its
      counters reset; a panicking run panics. */
  function FixFrom(prog: seq<Instr>, offset: nat): Outcome<Fixed>
    decreases |prog| - offset
  {
    if offset >= |prog| then Done(Fixed(false, []))
    else if prog[offset].op == "acc" then FixFrom(prog, offset + 1)
    else
      var f := Run(Candidate(prog, offset), 1, 0, 0);
      if !f.outcome.Done? then Panic
      else if f.outcome.value.normal then Done(Fixed(true, ResetAll(f.prog)))
      else FixFrom(prog, offset + 1)
  }

  /** `fix_program`: copies the program for every offset, patches the copy
      and runs it. */
  method FixProgram(prog: seq<Instr>) returns (r: Outcome<Fixed>)
    ensures r == FixFrom(prog, 0)
  {
    for offset := 0 to |prog|
      invariant FixFrom(prog, 0) == FixFrom(prog, offset)
    {
      if prog[offset].op == "acc" {
        continue;
      }
      var prog1 := new Instr[|prog|](i requires 0 <= i < |prog| => prog[i]);
      assert prog1[..] == prog;
      prog1[offset] := Flip(prog[offset]);
      assert prog1[..] == Candidate(prog, offset);
      var exit := RunProgram(prog1, 1);
      if !exit.Done? {
        return Panic;
      }
      if exit.value.normal {
        ResetProgram(prog1);
        return Done(Fixed(true, prog1[..]));
      }
    }
    return Done(Fixed(false, []));
  }

  /** The candidate at `offset` is tried: its operation is not acc. */
  predicate Tried(prog: seq<Instr>, offset: nat)
    requires offset < |prog|
  {
    prog[offset].op != "acc"
  }

  /** The candidate at `offset` runs into a repeated instruction. */
  predicate Loops(prog: seq<Instr>, offset: nat)
    requires offset < |prog|
  {
    Run(Candidate(prog, offset), 1, 0, 0).outcome.Done? && !Run(Candidate(prog, offset), 1, 0, 0).outcome.value.normal
  }

  /** The candidate at `offset` exits normally. */
  predicate Exits(prog: seq<Instr>, offset: nat)
    requires offset < |prog|
  {
    Run(Candidate(prog, offset), 1, 0, 0).outcome.Done? && Run(Candidate(prog, offset), 1, 0, 0).outcome.value.normal
  }

  /** What `fix_program` returns: a fix is the reset candidate of the first
      tried offset that exits, every earlier tried candidate having looped;
      no fix, `(false, [])`, means every tried candidate looped. */
  lemma {:induction false} FixFromMeaning(prog: seq<Instr>, offset: nat)
    ensures FixFrom(prog, offset) != OutOfFuel
    ensures FixFrom(prog, offset) == Done(Fixed(false, [])) <==>
      forall o :: offset <= o < |prog| && Tried(prog, o) ==> Loops(prog, o)
    ensures FixFrom(prog, offset).Done? && FixFrom(prog, offset).value.ok ==>
      exists o :: offset <= o < |prog| && Tried(prog, o) && Exits(prog, o)
        && FixFrom(prog, offset).value.prog == ResetAll(Candidate(prog, o))
        && forall p :: offset <= p < o && Tried(prog, p) ==> Loops(prog, p)
    ensures FixFrom(prog, offset).Done? && !FixFrom(prog, offset).value.ok ==> FixFrom(prog, offset).value.prog == []
    decreases |prog| - offset
  {
    if offset < |prog| {
      FixFromMeaning(prog, offset + 1);
      if Tried(prog, offset) {
        var f := Run(Candidate(prog, offset), 1, 0, 0);
        RunKeepsCode(Candidate(prog, offset), 1, 0, 0);
        ResetAllMeaning(f.prog, Candidate(prog, offset));
        assert SameCode(f.prog, Candidate(prog, offset));
      }
    }
  }

  /** The fixed program has every counter at zero and the code of its
      candidate. */
  lemma FixedIsReset(prog: seq<Instr>)
    requires FixFrom(prog, 0).Done? && FixFrom(prog, 0).value.ok
    ensures forall i :: 0 <= i < |FixFrom(prog, 0).value.prog| ==> FixFrom(prog, 0).value.prog[i].execCount == 0
    ensures |FixFrom(prog, 0).value.prog| == |prog|
  {
    FixFromMeaning(prog, 0);
    var o :| 0 <= o < |prog| && Tried(prog, o) && Exits(prog, o)
        && FixFrom(prog, 0).value.prog == ResetAll(Candidate(prog, o));
    ResetAllMeaning(Candidate(prog, o), Candidate(prog, o));
  }
}
