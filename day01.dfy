/** Day 1: find two entries of the expense report that sum to 2020 and
    report their product (1/src/main.rs). */
module ReportRepair {
  import opened Outcomes
  import opened Strings
  import opened Decimal

  const TARGET: int := 2020

  /** How the program ends: exit status 0 after printing a product, or
      exit status 1 when a token is not an `i32` or no pair exists. */
  datatype Report = Found(first: int, second: int, product: int) | BadToken | NoAnswer
  {
    function ExitStatus(): int {
      if Found? then 0 else 1
    }
  }

  /** Every token parsed as an `i32`; one failure makes the whole input fail. */
  function ParseNumbers(tokens: seq<string>): (r: Option<seq<int>>)
    ensures r.None? <==> exists k :: 0 <= k < |tokens| && ParseSigned(tokens[k], I32_MIN, I32_MAX).None?
    ensures r.Some? ==> (|r.value| == |tokens| &&
      forall k :: 0 <= k < |tokens| ==> Some(r.value[k]) == ParseSigned(tokens[k], I32_MIN, I32_MAX))
    decreases |tokens|
  {
    if tokens == [] then Some([])
    else
      match ParseSigned(tokens[0], I32_MIN, I32_MAX)
      case None => None
      case Some(n) =>
        match ParseNumbers(tokens[1..])
        case None => None
        case Some(rest) => Some([n] + rest)
  }

  /** (a, b) comes before (i, j) in the order the nested loops visit pairs. */
  predicate Before(a: int, b: int, i: int, j: int) {
    a < i || (a == i && b < j)
  }

  predicate SumsToTarget(numbers: seq<int>, a: int, b: int) {
    0 <= a < |numbers| && 0 <= b < |numbers| && numbers[a] + numbers[b] == TARGET
  }

  /** (i, j) is the first pair, in loop order, that sums to 2020. */
  ghost predicate IsFirstPair(numbers: seq<int>, i: int, j: int) {
    SumsToTarget(numbers, i, j) && forall a, b :: Before(a, b, i, j) ==> !SumsToTarget(numbers, a, b)
  }

  ghost predicate NoPair(numbers: seq<int>) {
    forall a, b :: !SumsToTarget(numbers, a, b)
  }

  /** The nested `for` loops: the first index pair, row by row, whose entries
      sum to 2020.  Both loops range over every index, so an entry may be
      paired with itself. */
  method FindPair(numbers: seq<int>) returns (found: bool, i: nat, j: nat)
    ensures found ==> IsFirstPair(numbers, i, j)
    ensures !found ==> NoPair(numbers)
  {
    i := 0;
    while i < |numbers|
      invariant i <= |numbers|
      invariant forall a, b :: a < i ==> !SumsToTarget(numbers, a, b)
    {
      j := 0;
      while j < |numbers|
        invariant j <= |numbers|
        invariant forall b :: b < j ==> !SumsToTarget(numbers, i, b)
      {
        if numbers[i] + numbers[j] == TARGET {
          found := true;
          return;
        }
        j := j + 1;
      }
      i := i + 1;
    }
    found, i, j := false, 0, 0;
  }

  /** The whole program on the whitespace-separated tokens of the input. */
  method Run(contents: string) returns (r: Report)
    ensures r.BadToken? <==> ParseNumbers(SplitWhitespace(contents)).None?
    ensures r.Found? ==> var numbers := ParseNumbers(SplitWhitespace(contents)).value;
      exists i, j :: IsFirstPair(numbers, i, j) && r == Found(numbers[i], numbers[j], numbers[i] * numbers[j])
    ensures r.NoAnswer? ==> NoPair(ParseNumbers(SplitWhitespace(contents)).value)
  {
    var tokens := SplitWhitespace(contents);
    var parsed := ParseNumbers(tokens);
    if parsed.None? {
      return BadToken;
    }
    var numbers := parsed.value;
    var found, i, j := FindPair(numbers);
    if found {
      r := Found(numbers[i], numbers[j], numbers[i] * numbers[j]);
    } else {
      r := NoAnswer;
    }
  }

  /** A single entry of 1010 is paired with itself. */
  method SelfPairExample() {
    var found, i, j := FindPair([1010]);
    assert SumsToTarget([1010], 0, 0);
    assert found && i == 0 && j == 0;
  }
}
