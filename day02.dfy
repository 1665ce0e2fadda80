/** Day 2: password policies and the counter that tallies their verdicts
    (2/src/main.rs). */
module PasswordPhilosophy {
  import opened Outcomes
  import opened Strings
  import opened Decimal

  /** "min-max c": the password must hold between min and max copies of c. */
  datatype FreqPolicy = FreqPolicy(minCount: nat, maxCount: nat, focusChar: char)
  {
    /** `FreqPolicy::check_conformance`: counts the focus character in a loop. */
    method CheckConformance(password: string) returns (ok: bool)
      ensures ok <==> minCount <= multiset(password)[focusChar] <= maxCount
    {
      var count := 0;
      for i := 0 to |password|
        invariant count == multiset(password[..i])[focusChar]
      {
        assert password[..i + 1] == password[..i] + [password[i]];
        if password[i] == focusChar {
          count := count + 1;
        }
      }
      assert password[..|password|] == password;
      ok := minCount <= count && count <= maxCount;
    }
  }

  /** "p0-p1 c": exactly one of the 1-based positions p0, p1 holds c. */
  datatype PositionPolicy = PositionPolicy(pos0: nat, pos1: nat, focusChar: char)
  {
    /** Whether the `k`-th character counts as a match: it is the focus
        character and its 1-based byte position is one of the two. */
    predicate Hit(password: string, k: nat)
      requires k < |password|
    {
      password[k] == focusChar && (ByteOffset(password, k) + 1 == pos0 || ByteOffset(password, k) + 1 == pos1)
    }

    /** The matches among the first `n` characters. */
    function Matches(password: string, n: nat): nat
      requires n <= |password|
    {
      if n == 0 then 0 else Matches(password, n - 1) + (if Hit(password, n - 1) then 1 else 0)
    }

    /** `PositionPolicy::check_conformance`: walks `char_indices`, whose
        positions are byte offsets, and accepts exactly one match. */
    method CheckConformance(password: string) returns (ok: bool)
      ensures ok <==> Matches(password, |password|) == 1
    {
      var matches := 0;
      var pos := 0;
      for i := 0 to |password|
        invariant matches == Matches(password, i)
        invariant pos == ByteOffset(password, i)
      {
        var normPos := pos + 1;
        if password[i] == focusChar && (normPos == pos0 || normPos == pos1) {
          matches := matches + 1;
        }
        pos := pos + Utf8Len(password[i]);
      }
      ok := matches == 1;
    }

    /** The 1-based position `p` among the first `n` characters holds the focus character. */
    predicate At(password: string, p: nat, n: nat)
      requires n <= |password|
    {
      1 <= p <= n && password[p - 1] == focusChar
    }

    lemma {:induction false} AsciiMatches(password: string, n: nat)
      requires IsAscii(password) && n <= |password|
      ensures Matches(password, n) ==
        (if At(password, pos0, n) then 1 else 0) + (if pos1 != pos0 && At(password, pos1, n) then 1 else 0)
    {
      if n > 0 {
        AsciiMatches(password, n - 1);
        AsciiByteOffset(password, n - 1);
      }
    }

    /** On an ASCII password the policy accepts iff exactly one of the two
        positions holds the character; naming one position twice accepts
        whenever it holds the character. */
    lemma AsciiConformance(password: string)
      requires IsAscii(password)
      ensures Matches(password, |password|) == 1 <==>
        if pos0 == pos1 then At(password, pos0, |password|)
        else At(password, pos0, |password|) != At(password, pos1, |password|)
    {
      AsciiMatches(password, |password|);
    }
  }

  /** `make_freq_policy`: captures 1 and 2 as `u8`, the first character of
      capture 3; a failed parse or an empty capture panics. */
  function MakeFreqPolicy(cap1: string, cap2: string, cap3: string): (r: Outcome<FreqPolicy>)
    ensures r.Done? <==> ParseUnsigned(cap1, U8_MAX).Some? && ParseUnsigned(cap2, U8_MAX).Some? && cap3 != []
    ensures r.Done? ==> (r.value.minCount == ParseUnsigned(cap1, U8_MAX).value
      && r.value.maxCount == ParseUnsigned(cap2, U8_MAX).value && r.value.focusChar == cap3[0])
    ensures r != OutOfFuel
  {
    match (ParseUnsigned(cap1, U8_MAX), ParseUnsigned(cap2, U8_MAX))
    case (Some(lo), Some(hi)) => if cap3 == [] then Panic else Done(FreqPolicy(lo, hi, cap3[0]))
    case _ => Panic
  }

  /** `make_position_policy`: the same captures, the numbers as `usize`. */
  function MakePositionPolicy(cap1: string, cap2: string, cap3: string): (r: Outcome<PositionPolicy>)
    ensures r.Done? <==> ParseUnsigned(cap1, U64_MAX).Some? && ParseUnsigned(cap2, U64_MAX).Some? && cap3 != []
    ensures r.Done? ==> (r.value.pos0 == ParseUnsigned(cap1, U64_MAX).value
      && r.value.pos1 == ParseUnsigned(cap2, U64_MAX).value && r.value.focusChar == cap3[0])
    ensures r != OutOfFuel
  {
    match (ParseUnsigned(cap1, U64_MAX), ParseUnsigned(cap2, U64_MAX))
    case (Some(p0), Some(p1)) => if cap3 == [] then Panic else Done(PositionPolicy(p0, p1, cap3[0]))
    case _ => Panic
  }

  /** `EvalResult`: how many verdicts were taken and how many were negative. */
  class EvalResult {
    var evalCount: nat
    var errorCount: nat

    ghost predicate Valid()
      reads this
    {
      errorCount <= evalCount
    }

    /** `make_eval_result`: both counters start at zero. */
    constructor ()
      ensures Valid() && evalCount == 0 && errorCount == 0
    {
      evalCount := 0;
      errorCount := 0;
    }

    /** `EvalResult::eval`: runs the check once, counts it, and counts it
        again as an error when it fails; the check's verdict is returned. */
    method Eval(callback: () -> bool) returns (result: bool)
      requires Valid()
      modifies this
      ensures Valid()
      ensures result == callback()
      ensures evalCount == old(evalCount) + 1
      ensures errorCount == old(errorCount) + (if result then 0 else 1)
      ensures Successes() == old(Successes()) + (if result then 1 else 0)
    {
      evalCount := evalCount + 1;
      result := callback();
      if !result {
        errorCount := errorCount + 1;
      }
    }

    /** The success count `report` prints: never negative, by `Valid`. */
    function Successes(): nat
      requires Valid()
      reads this
    {
      evalCount - errorCount
    }
  }

  /** Two policy checks on one password, tallied the way `main` does. */
  method EvalExample() {
    var freq := new EvalResult();
    var ok := freq.Eval(() => 1 <= multiset("abcde")['a'] <= 3);
    assert ok;
    var bad := freq.Eval(() => 1 <= multiset("cdefg")['b'] <= 3);
    assert !bad;
    assert freq.evalCount == 2 && freq.errorCount == 1 && freq.Successes() == 1;
  }
}
