/** Day 12: steering the ferry with compass moves, forward moves and turns
    (12/src/main.rs). */
module RainRisk {
  import opened Outcomes
  import opened Decimal
  import opened Arith

  const NORTH: char := 'N'
  const SOUTH: char := 'S'
  const EAST: char := 'E'
  const WEST: char := 'W'
  const FORWARD: char := 'F'
  const LEFT: char := 'L'
  const RIGHT: char := 'R'

  /** One navigation instruction: a command letter and its argument. */
  datatype Step = Step(direction: char, distance: int)

  /** The ship's heading and position. */
  datatype Pose = Pose(dir: char, x: int, y: int)

  predicate IsCompass(d: char) {
    d == NORTH || d == SOUTH || d == EAST || d == WEST
  }

  predicate IsCommand(c: char) {
    IsCompass(c) || c == FORWARD || c == LEFT || c == RIGHT
  }

  /** `decode_step`: the first character is the command, the rest an `i32`;
      an empty line, a bad number or an unknown command panics. */
  function DecodeStep(ln: string): Outcome<Step> {
    if ln == [] then Panic
    else
      var num := ParseSigned(ln[1..], I32_MIN, I32_MAX);
      if num.None? then Panic
      else if IsCommand(ln[0]) then Done(Step(ln[0], num.value))
      else Panic
  }

  /** `decode_steps`: every line decoded, in order. */
  function DecodeSteps(lines: seq<string>): (r: Outcome<seq<Step>>)
    ensures r != OutOfFuel
    ensures r.Done? ==> |r.value| == |lines| && forall i :: 0 <= i < |lines| ==> DecodeStep(lines[i]) == Done(r.value[i])
    ensures r.Panic? ==> exists i :: 0 <= i < |lines| && DecodeStep(lines[i]) == Panic
  {
    if lines == [] then Done([])
    else
      var init := DecodeSteps(lines[..|lines| - 1]);
      var last := DecodeStep(lines[|lines| - 1]);
      if init.Done? && last.Done? then Done(init.value + [last.value])
      else
        assert init.Panic? ==> exists i :: 0 <= i < |lines| - 1 && DecodeStep(lines[i]) == Panic by {
          if init.Panic? {
            var prefix := lines[..|lines| - 1];
            var i :| 0 <= i < |prefix| && DecodeStep(prefix[i]) == Panic;
            assert prefix[i] == lines[i];
          }
        }
        Panic
  }

  /** A command letter followed by a number in `i32` range decodes back to
      that step; any other leading letter panics. */
  lemma DecodeShownStep(c: char, n: int)
    requires I32_MIN <= n <= I32_MAX
    ensures DecodeStep([c] + ShowInt(n)) == if IsCommand(c) then Done(Step(c, n)) else Panic
  {
    ParseShowSigned(n, I32_MIN, I32_MAX);
    assert ([c] + ShowInt(n))[1..] == ShowInt(n);
  }

  /** `rotate_left_90`: a quarter turn to port. */
  function Left90(d: char): Outcome<char> {
    if d == NORTH then Done(WEST)
    else if d == WEST then Done(SOUTH)
    else if d == SOUTH then Done(EAST)
    else if d == EAST then Done(NORTH)
    else Panic
  }

  /** `n` quarter turns to port. */
  function Turn(d: char, n: nat): Outcome<char>
    decreases n
  {
    if n == 0 then Done(d)
    else
      var t := Left90(d);
      if t.Done? then Turn(t.value, n - 1) else Panic
  }

  /** The unit vector of a heading, with y growing southwards. */
  function Heading(d: char): (int, int)
    requires IsCompass(d)
  {
    if d == NORTH then (0, -1) else if d == SOUTH then (0, 1) else if d == EAST then (1, 0) else (-1, 0)
  }

  /** A quarter turn to port keeps a compass heading a compass heading and
      rotates its vector by 90 degrees; four of them are no turn at all. */
  lemma QuarterTurn(d: char)
    requires IsCompass(d)
    ensures Left90(d).Done? && IsCompass(Left90(d).value)
    ensures Heading(Left90(d).value) == (Heading(d).1, -Heading(d).0)
    ensures Turn(d, 4) == Done(d)
  {
  }

  /** Only the number of quarter turns modulo 4 matters. */
  lemma {:induction false} TurnModFour(d: char, n: nat)
    requires IsCompass(d)
    ensures Turn(d, n).Done? && IsCompass(Turn(d, n).value)
    ensures Turn(d, n) == Turn(d, n % 4)
    decreases n
  {
    QuarterTurn(d);
    if n >= 4 {
      TurnSplit(d, 4, n - 4);
      TurnModFour(d, n - 4);
      assert n % 4 == (n - 4) % 4;
    } else if n > 0 {
      TurnModFour(Left90(d).value, n - 1);
    }
  }

  /** Turning `a` then `b` quarters is turning `a + b`. */
  lemma {:induction false} TurnSplit(d: char, a: nat, b: nat)
    requires Turn(d, a).Done?
    ensures Turn(d, a + b) == Turn(Turn(d, a).value, b)
    decreases a
  {
    if a > 0 {
      TurnSplit(Left90(d).value, a - 1, b);
    }
  }

  /** The spec of `rotate_left`'s loop: one quarter turn per pass while
      the remaining degrees are positive. */
  function RotateLeftOf(d: char, deg: int): Outcome<char>
    decreases if deg > 0 then deg else 0
  {
    if deg > 0 then
      var t := Left90(d);
      if t.Done? then RotateLeftOf(t.value, deg - 90) else Panic
    else Done(d)
  }

  /** `rotate_left`. */
  method RotateLeft(startDir: char, degrees: int) returns (r: Outcome<char>)
    ensures r == RotateLeftOf(startDir, degrees)
  {
    var dir := startDir;
    var deg := degrees;
    while deg > 0
      invariant RotateLeftOf(startDir, degrees) == RotateLeftOf(dir, deg)
    {
      var t := Left90(dir);
      if !t.Done? {
        return Panic;
      }
      dir := t.value;
      deg := deg - 90;
    }
    return Done(dir);
  }

  /** The quarter turns `rotate_left` makes: one per started 90 degrees,
      none for a non-positive angle. */
  function Turns(deg: int): nat {
    if deg <= 0 then 0 else CeilDiv(deg, 90)
  }

  /** `rotate_left` turns a quarter for every started 90 degrees. */
  lemma {:induction false} RotateLeftTurns(d: char, deg: int)
    ensures RotateLeftOf(d, deg) == Turn(d, Turns(deg))
    decreases if deg > 0 then deg else 0
  {
    if deg > 0 {
      var t := Left90(d);
      if t.Done? {
        RotateLeftTurns(t.value, deg - 90);
        assert Turns(deg) == Turns(deg - 90) + 1;
      }
    }
  }

  /** `rotate_right`: a turn to starboard is the turn to port by the rest
      of the full circle. */
  function RotateRightOf(d: char, deg: int): Outcome<char> {
    RotateLeftOf(d, 360 - deg)
  }

  /** For right angles up to a full circle, turning to starboard and then
      back to port by the same angle restores the heading. */
  lemma RightThenLeft(d: char, deg: int)
    requires IsCompass(d) && 0 <= deg <= 360 && deg % 90 == 0
    ensures RotateRightOf(d, deg).Done?
    ensures RotateLeftOf(RotateRightOf(d, deg).value, deg) == Done(d)
  {
    var q := deg / 90;
    assert Turns(360 - deg) == 4 - q && Turns(deg) == q;
    RotateLeftTurns(d, 360 - deg);
    TurnModFour(d, 4 - q);
    var e := Turn(d, 4 - q).value;
    RotateLeftTurns(e, deg);
    TurnSplit(d, 4 - q, q);
    TurnModFour(d, 4);
  }

  /** `exec_step`: compass moves shift the position, `F` repeats the step
      with the current heading as its command, `L` and `R` turn.  `F` while
      heading 'F' would recurse for ever; that overflow of the stack is an
      abnormal end like a panic. */
  function ExecStep(step: Step, curDir: char, x: int, y: int): (r: Outcome<Pose>)
    ensures r != OutOfFuel
    decreases if step.direction == FORWARD then 1 else 0
  {
    if step.direction == 'N' then Done(Pose(curDir, x, y - step.distance))
    else if step.direction == 'S' then Done(Pose(curDir, x, y + step.distance))
    else if step.direction == 'W' then Done(Pose(curDir, x - step.distance, y))
    else if step.direction == 'E' then Done(Pose(curDir, x + step.distance, y))
    else if step.direction == 'F' then
      if curDir == FORWARD then Panic
      else ExecStep(Step(curDir, step.distance), curDir, x, y)
    else if step.direction == 'L' then
      var d := RotateLeftOf(curDir, step.distance);
      if d.Done? then Done(Pose(d.value, x, y)) else Panic
    else if step.direction == 'R' then
      var d := RotateRightOf(curDir, step.distance);
      if d.Done? then Done(Pose(d.value, x, y)) else Panic
    else Panic
  }

  /** From a compass heading every command succeeds: moves go `distance`
      along the command's (or, for `F`, the ship's) heading vector and keep
      the heading; turns keep the position and turn by whole quarters. */
  lemma ExecStepMeaning(step: Step, d: char, x: int, y: int)
    requires IsCompass(d) && IsCommand(step.direction)
    ensures ExecStep(step, d, x, y).Done?
    ensures var p := ExecStep(step, d, x, y).value;
      && IsCompass(p.dir)
      && (IsCompass(step.direction) ==>
            p == Pose(d, x + step.distance * Heading(step.direction).0, y + step.distance * Heading(step.direction).1))
      && (step.direction == FORWARD ==>
            p == Pose(d, x + step.distance * Heading(d).0, y + step.distance * Heading(d).1))
      && (step.direction == LEFT ==> Turn(d, Turns(step.distance)) == Done(p.dir) && p.x == x && p.y == y)
      && (step.direction == RIGHT ==> Turn(d, Turns(360 - step.distance)) == Done(p.dir) && p.x == x && p.y == y)
  {
    RotateLeftTurns(d, step.distance);
    TurnModFour(d, Turns(step.distance));
    RotateLeftTurns(d, 360 - step.distance);
    TurnModFour(d, Turns(360 - step.distance));
  }

  /** The pose after the first `n` steps, starting east at the origin. */
  function Run(steps: seq<Step>, n: nat): (r: Outcome<Pose>)
    requires n <= |steps|
    ensures r != OutOfFuel
  {
    if n == 0 then Done(Pose(EAST, 0, 0))
    else
      var p := Run(steps, n - 1);
      if p.Done? then ExecStep(steps[n - 1], p.value.dir, p.value.x, p.value.y) else Panic
  }

  /** `exec_steps`: the steps applied in order to the ship's state. */
  method ExecSteps(steps: seq<Step>) returns (r: Outcome<Pose>)
    ensures r == Run(steps, |steps|)
  {
    var dir := EAST;
    var x := 0;
    var y := 0;
    for i := 0 to |steps|
      invariant Run(steps, i) == Done(Pose(dir, x, y))
    {
      var next := ExecStep(steps[i], dir, x, y);
      if !next.Done? {
        RunPanics(steps, i + 1, |steps|);
        return Panic;
      }
      x := next.value.x;
      y := next.value.y;
      dir := next.value.dir;
    }
    return Done(Pose(dir, x, y));
  }

  /** Once a step fails, the run has failed. */
  lemma {:induction false} RunPanics(steps: seq<Step>, i: nat, n: nat)
    requires i <= n <= |steps| && !Run(steps, i).Done?
    ensures Run(steps, n) == Panic
    decreases n - i
  {
    if i < n {
      RunPanics(steps, i + 1, n);
    }
  }

  /** Decoded instructions never make the ship panic, and it always faces
      a compass direction. */
  lemma {:induction false} RunStaysOnCompass(steps: seq<Step>, n: nat)
    requires n <= |steps| && forall i :: 0 <= i < |steps| ==> IsCommand(steps[i].direction)
    ensures Run(steps, n).Done? && IsCompass(Run(steps, n).value.dir)
  {
    if n > 0 {
      RunStaysOnCompass(steps, n - 1);
      var p := Run(steps, n - 1).value;
      ExecStepMeaning(steps[n - 1], p.dir, p.x, p.y);
    }
  }

  /** Whatever `decode_steps` returns runs to completion. */
  lemma DecodedRuns(lines: seq<string>)
    requires DecodeSteps(lines).Done?
    ensures Run(DecodeSteps(lines).value, |lines|).Done?
  {
    var steps := DecodeSteps(lines).value;
    forall i | 0 <= i < |steps| ensures IsCommand(steps[i].direction) {
      assert DecodeStep(lines[i]) == Done(steps[i]);
    }
    RunStaysOnCompass(steps, |steps|);
  }
}
