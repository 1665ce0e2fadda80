/** Day 18: arithmetic without precedence.  An expression of one-digit
    numbers, `+`, `*`, parentheses and spaces is evaluated strictly from left
    to right.  `eval_ltr_chars` walks the characters with a cursor that is
    shared with the recursive calls for parenthesised groups: a group's call
    stops on its `)` without stepping past it, and the caller's own step
    skips it. */
module OperationOrder {
  import opened Outcomes

  // ---------------------------------------------------------------------
  // The evaluation, one character at a time.

  /** The operators the evaluator keeps pending. */
  type Op = c: char | c == '+' || c == '*' witness '+'

  predicate IsDigit(ch: char) {
    '0' <= ch <= '9'
  }

  /** Combine the value so far with an operand under the pending operator. */
  function Apply(val: int, op: Op, x: int): int {
    if op == '*' then val * x else val + x
  }

  /** The loop of `eval_ltr_chars` from cursor `off` with the value `val`
      and the pending operator `op`: the value and the final cursor, or a
      panic on a character outside the expression alphabet. */
  function Ltr(chars: seq<char>, off: nat, val: int, op: Op): (r: Outcome<(int, nat)>)
    ensures !r.OutOfFuel?
    ensures r.Done? ==> r.value.1 >= off
    decreases if off < |chars| then |chars| - off else 0
  {
    if off >= |chars| then Done((val, off))
    else
      var ch := chars[off];
      if ch == '(' then
        match Ltr(chars, off + 1, 0, '+')
        case Done((sub, o)) => Ltr(chars, o + 1, Apply(val, op, sub), op)
        case _ => Panic
      else if ch == ')' then Done((val, off))
      else if IsDigit(ch) then Ltr(chars, off + 1, Apply(val, op, ch as int - '0' as int), op)
      else if ch == '*' || ch == '+' then Ltr(chars, off + 1, val, ch)
      else if ch == ' ' then Ltr(chars, off + 1, val, op)
      else Panic
  }

  /** `eval_ltr`: the value of a whole line, read from cursor 0. */
  function Evaluate(text: string): Outcome<int> {
    match Ltr(text, 0, 0, '+')
    case Done((v, _)) => Done(v)
    case _ => Panic
  }

  /** The `&mut usize` cursor shared by the calls of `eval_ltr_chars`. */
  class Cursor {
    var offset: nat

    constructor (offset: nat)
      ensures this.offset == offset
    {
      this.offset := offset;
    }
  }

  /** `eval_ltr_chars`: evaluates from the cursor, leaving the cursor on
      the `)` that ends the group or past the end of the text. */
  method EvalLtrChars(chars: seq<char>, cursor: Cursor) returns (r: Outcome<int>)
    modifies cursor
    ensures match Ltr(chars, old(cursor.offset), 0, '+')
            case Done((v, o)) => r == Done(v) && cursor.offset == o
            case _ => r == Panic
    decreases if cursor.offset < |chars| then |chars| - cursor.offset else 0
  {
    var val := 0;
    var currOp: Op := '+';
    while cursor.offset < |chars|
      invariant cursor.offset >= old(cursor.offset)
      invariant Ltr(chars, cursor.offset, val, currOp) == Ltr(chars, old(cursor.offset), 0, '+')
      decreases |chars| - cursor.offset
    {
      var ch := chars[cursor.offset];
      if ch == '(' {
        cursor.offset := cursor.offset + 1;
        if currOp == '*' {
          var multSub := EvalLtrChars(chars, cursor);
          if multSub.Panic? {
            return Panic;
          }
          val := val * multSub.value;
        } else if currOp == '+' {
          var addSub := EvalLtrChars(chars, cursor);
          if addSub.Panic? {
            return Panic;
          }
          val := val + addSub.value;
        }
      } else if ch == ')' {
        return Done(val);
      } else if IsDigit(ch) {
        var nextVal := ch as int - '0' as int;
        if currOp == '*' {
          val := val * nextVal;
        } else if currOp == '+' {
          val := val + nextVal;
        }
      } else if ch == '*' || ch == '+' {
        currOp := ch;
      } else if ch == ' ' {
      } else {
        return Panic;
      }
      cursor.offset := cursor.offset + 1;
    }
    return Done(val);
  }

  /** `eval_ltr`: a fresh cursor at 0. */
  method EvalLtr(text: string) returns (r: Outcome<int>)
    ensures r == Evaluate(text)
  {
    var cursor := new Cursor(0);
    r := EvalLtrChars(text, cursor);
  }

  // ---------------------------------------------------------------------
  // The intended meaning: expressions as trees, folded left to right.

  type DigitValue = d: int | 0 <= d <= 9

  /** An operand: one digit, or a parenthesised expression. */
  datatype Term = Digit(d: DigitValue) | Group(e: Expr)

  /** An expression, built from the left: a first operand, then each
      further operand with the operator before it. */
  datatype Expr = Single(t: Term) | Then(init: Expr, op: Op, last: Term)

  function TermValue(t: Term): int {
    match t
    case Digit(d) => d
    case Group(e) => Value(e)
  }

  /** Operators apply in the order written, with no precedence. */
  function Value(e: Expr): int {
    match e
    case Single(t) => TermValue(t)
    case Then(init, op, last) => Apply(Value(init), op, TermValue(last))
  }

  /** The text of an operand. */
  function ShowTerm(t: Term): string {
    match t
    case Digit(d) => [(d + '0' as int) as char]
    case Group(e) => "(" + Show(e) + ")"
  }

  /** The text of an expression, with a space on each side of every operator. */
  function Show(e: Expr): string {
    match e
    case Single(t) => ShowTerm(t)
    case Then(init, op, last) => Show(init) + " " + [op] + " " + ShowTerm(last)
  }

  /** The operator pending after an expression has been read. */
  function LastOp(e: Expr): Op {
    match e
    case Single(_) => '+'
    case Then(_, op, _) => op
  }

  /** `chars` holds `text` from position `off` on. */
  predicate HasAt(chars: seq<char>, off: nat, text: string) {
    off + |text| <= |chars| && chars[off..off + |text|] == text
  }

  lemma HasAtSplit(chars: seq<char>, off: nat, a: string, b: string)
    requires HasAt(chars, off, a + b)
    ensures HasAt(chars, off, a) && HasAt(chars, off + |a|, b)
  {
    assert chars[off..off + |a|] == (a + b)[..|a|];
    assert chars[off + |a|..off + |a| + |b|] == (a + b)[|a|..];
  }

  /** Reading an operand applies it to the value so far under the pending
      operator, which stays pending. */
  lemma {:induction false} TermStep(t: Term, chars: seq<char>, off: nat, val: int, op: Op)
    requires HasAt(chars, off, ShowTerm(t))
    ensures Ltr(chars, off, val, op) == Ltr(chars, off + |ShowTerm(t)|, Apply(val, op, TermValue(t)), op)
    decreases t, 0
  {
    match t
    case Digit(d) =>
      assert chars[off] == ShowTerm(t)[0];
    case Group(e) =>
      GroupLayout(e, chars, off);
      ExprSteps(e, chars, off + 1);
  }

  /** Reading a whole expression from a fresh start reaches its value, with
      its last operator pending. */
  lemma {:induction false} ExprSteps(e: Expr, chars: seq<char>, off: nat)
    requires HasAt(chars, off, Show(e))
    ensures Ltr(chars, off, 0, '+') == Ltr(chars, off + |Show(e)|, Value(e), LastOp(e))
    decreases e, 1
  {
    match e
    case Single(t) =>
      TermStep(t, chars, off, 0, '+');
    case Then(init, op, last) =>
      var n := |Show(init)|;
      ThenLayout(init, op, last, chars, off);
      ExprSteps(init, chars, off);
      SpacedOpStep(chars, off + n, Value(init), LastOp(init), op);
      TermStep(last, chars, off + n + 3, Value(init), op);
      assert off + |Show(e)| == off + n + 3 + |ShowTerm(last)|;
      assert Value(e) == Apply(Value(init), op, TermValue(last));
  }

  /** A spaced operator replaces the pending one. */
  lemma SpacedOpStep(chars: seq<char>, pos: nat, val: int, prev: Op, op: Op)
    requires pos + 2 < |chars| && chars[pos] == ' ' && chars[pos + 1] == op && chars[pos + 2] == ' '
    ensures Ltr(chars, pos, val, prev) == Ltr(chars, pos + 3, val, op)
  {
    SkipStep(chars, pos, val, prev);
    OpStep(chars, pos + 1, val, prev);
    SkipStep(chars, pos + 2, val, op);
  }

  /** Where the parts of `init op last` lie. */
  lemma ThenLayout(init: Expr, op: Op, last: Term, chars: seq<char>, off: nat)
    requires HasAt(chars, off, Show(Then(init, op, last)))
    ensures var n := |Show(init)|;
      && |Show(Then(init, op, last))| == n + 3 + |ShowTerm(last)|
      && HasAt(chars, off, Show(init)) && HasAt(chars, off + n + 3, ShowTerm(last))
      && chars[off + n] == ' ' && chars[off + n + 1] == op && chars[off + n + 2] == ' '
  {
    var a, b := Show(init), ShowTerm(last);
    var mid := " " + [op] + " ";
    assert Show(Then(init, op, last)) == a + mid + b;
    SpacedLayout(chars, off, a, mid, b);
    assert mid[0] == ' ' && mid[1] == op && mid[2] == ' ';
  }

  lemma SpacedLayout(chars: seq<char>, off: nat, a: string, mid: string, b: string)
    requires |mid| == 3 && HasAt(chars, off, a + mid + b)
    ensures HasAt(chars, off, a) && HasAt(chars, off + |a| + 3, b)
    ensures chars[off + |a|] == mid[0] && chars[off + |a| + 1] == mid[1] && chars[off + |a| + 2] == mid[2]
  {
    HasAtSplit(chars, off, a + mid, b);
    HasAtSplit(chars, off, a, mid);
    assert chars[off + |a|..off + |a| + 3] == mid;
  }

  /** Where the parts of `(e)` lie. */
  lemma GroupLayout(e: Expr, chars: seq<char>, off: nat)
    requires HasAt(chars, off, ShowTerm(Group(e)))
    ensures |ShowTerm(Group(e))| == |Show(e)| + 2
    ensures chars[off] == '(' && HasAt(chars, off + 1, Show(e)) && chars[off + 1 + |Show(e)|] == ')'
  {
    HasAtSplit(chars, off, "(" + Show(e), ")");
    HasAtSplit(chars, off, "(", Show(e));
    assert chars[off] == "("[0];
    assert chars[off + 1 + |Show(e)|] == ")"[0];
  }

  /** A space changes nothing. */
  lemma SkipStep(chars: seq<char>, off: nat, val: int, op: Op)
    requires off < |chars| && chars[off] == ' '
    ensures Ltr(chars, off, val, op) == Ltr(chars, off + 1, val, op)
  {
  }

  /** An operator replaces the pending one. */
  lemma OpStep(chars: seq<char>, off: nat, val: int, op: Op)
    requires off < |chars| && (chars[off] == '+' || chars[off] == '*')
    ensures Ltr(chars, off, val, op) == Ltr(chars, off + 1, val, chars[off])
  {
  }

  /** The evaluator computes the left-to-right value of every expression
      written out with single-digit operands. */
  lemma EvaluateShow(e: Expr)
    ensures Evaluate(Show(e)) == Done(Value(e))
  {
    ExprSteps(e, Show(e), 0);
  }

  /** A `)` with no matching `(` ends the evaluation with the value so far;
      the rest of the line is never read. */
  lemma StrayCloseEndsEarly(e: Expr, rest: string)
    ensures Evaluate(Show(e) + ")" + rest) == Done(Value(e))
  {
    var chars := Show(e) + ")" + rest;
    HasAtSplit(chars, 0, Show(e), ")" + rest);
    ExprSteps(e, chars, 0);
    assert chars[|Show(e)|] == ')';
  }

  // ---------------------------------------------------------------------
  // Panics.

  /** The characters `eval_ltr_chars` knows. */
  predicate Known(ch: char) {
    ch == '(' || ch == ')' || IsDigit(ch) || ch == '*' || ch == '+' || ch == ' '
  }

  /** A text of known characters never panics, balanced or not. */
  lemma {:induction false} KnownNeverPanics(chars: seq<char>, off: nat, val: int, op: Op)
    requires forall i :: 0 <= i < |chars| ==> Known(chars[i])
    ensures Ltr(chars, off, val, op).Done?
    decreases if off < |chars| then |chars| - off else 0
  {
    if off < |chars| {
      var ch := chars[off];
      if ch == '(' {
        KnownNeverPanics(chars, off + 1, 0, '+');
        var sub := Ltr(chars, off + 1, 0, '+').value;
        KnownNeverPanics(chars, sub.1 + 1, Apply(val, op, sub.0), op);
      } else if IsDigit(ch) {
        KnownNeverPanics(chars, off + 1, Apply(val, op, ch as int - '0' as int), op);
      } else if ch == '*' || ch == '+' {
        KnownNeverPanics(chars, off + 1, val, ch);
      } else if ch == ' ' {
        KnownNeverPanics(chars, off + 1, val, op);
      }
    }
  }

  /** Any other character panics once the evaluation reaches it. */
  lemma UnknownPanics(e: Expr, c: char, rest: string)
    requires !Known(c)
    ensures Evaluate(Show(e) + [c] + rest) == Panic
  {
    var chars := Show(e) + [c] + rest;
    HasAtSplit(chars, 0, Show(e), [c] + rest);
    ExprSteps(e, chars, 0);
    assert chars[|Show(e)|] == c;
  }

  // ---------------------------------------------------------------------
  // The puzzle answer.

  /** The sum of the values of all lines, or a panic if any line panics. */
  function Total(lines: seq<string>): Outcome<int> {
    if lines == [] then Done(0)
    else
      match Total(lines[..|lines| - 1])
      case Done(sum) =>
        (match Evaluate(lines[|lines| - 1])
         case Done(v) => Done(sum + v)
         case _ => Panic)
      case _ => Panic
  }

  /** The loop of `main` that adds up the value of every line. */
  method SumLines(lines: seq<string>) returns (r: Outcome<int>)
    ensures r == Total(lines)
  {
    var sum := 0;
    for i := 0 to |lines|
      invariant Total(lines[..i]) == Done(sum)
    {
      var val := EvalLtr(lines[i]);
      if val.Panic? {
        PanicSticks(lines, i + 1);
        return Panic;
      }
      assert lines[..i + 1][..i] == lines[..i];
      sum := sum + val.value;
    }
    assert lines[..|lines|] == lines;
    return Done(sum);
  }

  /** Once a line panics, so does every longer list of lines. */
  lemma {:induction false} PanicSticks(lines: seq<string>, k: nat)
    requires 0 < k <= |lines| && Evaluate(lines[k - 1]) == Panic
    ensures Total(lines) == Panic
    decreases |lines|
  {
    if k < |lines| {
      PanicSticks(lines[..|lines| - 1], k);
    }
  }

  /** The sum of the values of expression trees. */
  function SumValues(es: seq<Expr>): int {
    if es == [] then 0 else SumValues(es[..|es| - 1]) + Value(es[|es| - 1])
  }

  /** Lines that are the texts of expressions add up to their values. */
  lemma {:induction false} TotalOfShows(lines: seq<string>, es: seq<Expr>)
    requires |lines| == |es| && forall i :: 0 <= i < |es| ==> lines[i] == Show(es[i])
    ensures Total(lines) == Done(SumValues(es))
    decreases |es|
  {
    if es != [] {
      TotalOfShows(lines[..|lines| - 1], es[..|es| - 1]);
      EvaluateShow(es[|es| - 1]);
    }
  }

  // ---------------------------------------------------------------------
  // The worked examples.

  /** `(2 * 3)` is 6. */
  lemma Basic()
    ensures Evaluate("(2 * 3)") == Done(6)
  {
    var e := Single(Group(Then(Single(Digit(2)), '*', Digit(3))));
    assert Show(e) == "(2 * 3)";
    EvaluateShow(e);
  }

  /** The tree of the next example is written out as `1 + (2 * 3) + (4 * (5 + 6))`. */
  lemma ShowExample0(e: Expr)
    requires e == Then(Then(Single(Digit(1)), '+', Group(Then(Single(Digit(2)), '*', Digit(3)))), '+', Group(Then(Single(Digit(4)), '*', Group(Then(Single(Digit(5)), '+', Digit(6))))))
    ensures Show(e) == "1 + (2 * 3) + (4 * (5 + 6))"
  {
  }

  /** `1 + (2 * 3) + (4 * (5 + 6))` is 51. */
  lemma Example0(text: string)
    requires text == "1 + (2 * 3) + (4 * (5 + 6))"
    ensures Evaluate(text) == Done(51)
  {
    var e := Then(Then(Single(Digit(1)), '+', Group(Then(Single(Digit(2)), '*', Digit(3)))), '+', Group(Then(Single(Digit(4)), '*', Group(Then(Single(Digit(5)), '+', Digit(6))))));
    ShowExample0(e);
    EvaluateShow(e);
  }

  /** `2 * 3 + (4 * 5)` is 26. */
  lemma Example1()
    ensures Evaluate("2 * 3 + (4 * 5)") == Done(26)
  {
    var e := Then(Then(Single(Digit(2)), '*', Digit(3)), '+', Group(Then(Single(Digit(4)), '*', Digit(5))));
    assert Show(e) == "2 * 3 + (4 * 5)";
    EvaluateShow(e);
  }

  /** The tree of the next example is written out as `5 + (8 * 3 + 9 + 3 * 4 * 3)`. */
  lemma ShowExample2(e: Expr)
    requires e == Then(Single(Digit(5)), '+', Group(Then(Then(Then(Then(Then(Single(Digit(8)), '*', Digit(3)), '+', Digit(9)), '+', Digit(3)), '*', Digit(4)), '*', Digit(3))))
    ensures Show(e) == "5 + (8 * 3 + 9 + 3 * 4 * 3)"
  {
  }

  /** `5 + (8 * 3 + 9 + 3 * 4 * 3)` is 437. */
  lemma Example2(text: string)
    requires text == "5 + (8 * 3 + 9 + 3 * 4 * 3)"
    ensures Evaluate(text) == Done(437)
  {
    var e := Then(Single(Digit(5)), '+', Group(Then(Then(Then(Then(Then(Single(Digit(8)), '*', Digit(3)), '+', Digit(9)), '+', Digit(3)), '*', Digit(4)), '*', Digit(3))));
    ShowExample2(e);
    EvaluateShow(e);
  }

  /** `5 * 9 * (7 * 3 * 3 + 9 * 3 + (8 + 6 * 4))` is 12240: the expression as a tree, whose text `Show(e)`
      is that line. */
  lemma Example3(e: Expr)
    requires e == Then(Then(Single(Digit(5)), '*', Digit(9)), '*', Group(Then(Then(Then(Then(Then(Single(Digit(7)), '*', Digit(3)), '*', Digit(3)), '+', Digit(9)), '*', Digit(3)), '+', Group(Then(Then(Single(Digit(8)), '+', Digit(6)), '*', Digit(4))))))
    ensures Evaluate(Show(e)) == Done(12240)
  {
    EvaluateShow(e);
  }

  /** `((2 + 4 * 9) * (6 + 9 * 8 + 6) + 6) + 2 + 4 * 2` is 13632: the expression as a tree, whose text `Show(e)`
      is that line. */
  lemma Example4(e: Expr)
    requires e == Then(Then(Then(Single(Group(Then(Then(Single(Group(Then(Then(Single(Digit(2)), '+', Digit(4)), '*', Digit(9)))), '*', Group(Then(Then(Then(Single(Digit(6)), '+', Digit(9)), '*', Digit(8)), '+', Digit(6)))), '+', Digit(6)))), '+', Digit(2)), '+', Digit(4)), '*', Digit(2))
    ensures Evaluate(Show(e)) == Done(13632)
  {
    EvaluateShow(e);
  }

  /** `4 + (8 * (4 + 5 + 5) + (4 + 8 * 5 + 2 * 5 * 8) + 2 * 9) * 9` is 210150: the expression as a tree, whose text `Show(e)`
      is that line. */
  lemma RealLast(e: Expr)
    requires e == Then(Then(Single(Digit(4)), '+', Group(Then(Then(Then(Then(Single(Digit(8)), '*', Group(Then(Then(Single(Digit(4)), '+', Digit(5)), '+', Digit(5)))), '+', Group(Then(Then(Then(Then(Then(Single(Digit(4)), '+', Digit(8)), '*', Digit(5)), '+', Digit(2)), '*', Digit(5)), '*', Digit(8)))), '+', Digit(2)), '*', Digit(9)))), '*', Digit(9))
    ensures Evaluate(Show(e)) == Done(210150)
  {
    EvaluateShow(e);
  }

  /** `7 * 8 + (4 + 2 + (8 + 9 * 7 * 3 + 6 * 9)) + 5 * 7` is 23338: the expression as a tree, whose text `Show(e)`
      is that line. */
  lemma RealRandom(e: Expr)
    requires e == Then(Then(Then(Then(Single(Digit(7)), '*', Digit(8)), '+', Group(Then(Then(Single(Digit(4)), '+', Digit(2)), '+', Group(Then(Then(Then(Then(Then(Single(Digit(8)), '+', Digit(9)), '*', Digit(7)), '*', Digit(3)), '+', Digit(6)), '*', Digit(9)))))), '+', Digit(5)), '*', Digit(7))
    ensures Evaluate(Show(e)) == Done(23338)
  {
    EvaluateShow(e);
  }
}
