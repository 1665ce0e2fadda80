/** Day 9: the first number that is not a sum of two of the numbers
    before it, and the windows that add up to a target (9/src/main.rs). */
module EncodingError {
  import opened Outcomes

  /** Two different positions in `[lo, hi)` hold numbers adding up to `v`. */
  predicate HasPair(numbers: seq<nat>, lo: nat, hi: nat, v: nat)
    requires lo <= hi <= |numbers|
  {
    exists i, j :: lo <= i < j < hi && numbers[i] + numbers[j] == v
  }

  /** The pairs of `combinations(2)` over `numbers[lo..hi]`, stopping at the
      first one that adds up to `v`. */
  method FindPair(numbers: seq<nat>, lo: nat, hi: nat, v: nat) returns (found: bool)
    requires lo <= hi <= |numbers|
    ensures found <==> HasPair(numbers, lo, hi, v)
  {
    for i := lo to hi
      invariant forall a, b :: lo <= a < i && a < b < hi ==> numbers[a] + numbers[b] != v
    {
      for j := i + 1 to hi
        invariant forall b :: i < b < j ==> numbers[i] + numbers[b] != v
      {
        if numbers[i] + numbers[j] == v {
          return true;
        }
      }
    }
    return false;
  }

  /** What `validate_seq` reports: `(true, 0)` when every checked number is
      a pair sum, else `(false, n)` for the first one that is not. */
  datatype Verdict = Verdict(valid: bool, last: nat)

  /** The check of `validate_seq` from index `idx` on: the indices
      `win_size .. len - win_size` are checked against the `win_size`
      numbers before them (the last `win_size` numbers are never checked). */
  function ValidateFrom(numbers: seq<nat>, winSize: nat, idx: nat): Verdict
    requires winSize <= idx && winSize <= |numbers|
    decreases |numbers| - idx
  {
    if idx >= |numbers| - winSize then Verdict(true, 0)
    else if HasPair(numbers, idx - winSize, idx, numbers[idx]) then ValidateFrom(numbers, winSize, idx + 1)
    else Verdict(false, numbers[idx])
  }

  /** `validate_seq`: the subtraction `len - win_size` panics when the
      window is longer than the input. */
  function Validate(numbers: seq<nat>, winSize: nat): Outcome<Verdict> {
    if winSize > |numbers| then Panic else Done(ValidateFrom(numbers, winSize, winSize))
  }

  /** Index `idx` is checked and is not the sum of two of the `winSize`
      numbers before it. */
  predicate Broken(numbers: seq<nat>, winSize: nat, idx: nat)
    requires winSize <= |numbers|
  {
    winSize <= idx < |numbers| - winSize && !HasPair(numbers, idx - winSize, idx, numbers[idx])
  }

  /** `(false, v)` names the value at the first broken index; `(true, 0)`
      means no index from `idx` on is broken. */
  lemma {:induction false} ValidateFromMeaning(numbers: seq<nat>, winSize: nat, idx: nat)
    requires winSize <= idx && winSize <= |numbers|
    ensures var r := ValidateFrom(numbers, winSize, idx);
      (r.valid <==> forall k :: idx <= k ==> !Broken(numbers, winSize, k))
      && (r.valid ==> r.last == 0)
      && (!r.valid ==>
            exists k :: (idx <= k && Broken(numbers, winSize, k) && numbers[k] == r.last
              && forall m :: idx <= m < k ==> !Broken(numbers, winSize, m)))
    decreases |numbers| - idx
  {
    if idx < |numbers| - winSize {
      ValidateFromMeaning(numbers, winSize, idx + 1);
      if HasPair(numbers, idx - winSize, idx, numbers[idx]) {
        var r := ValidateFrom(numbers, winSize, idx + 1);
        if !r.valid {
          var k :| idx + 1 <= k && Broken(numbers, winSize, k) && numbers[k] == r.last
            && forall m :: idx + 1 <= m < k ==> !Broken(numbers, winSize, m);
          assert forall m :: idx <= m < k ==> !Broken(numbers, winSize, m);
        }
      } else {
        assert Broken(numbers, winSize, idx);
      }
    }
  }

  /** `validate_seq`, the labelled loops: the inner pair search ends the
      outer iteration early on a hit. */
  method ValidateSeq(numbers: seq<nat>, winSize: nat) returns (r: Outcome<Verdict>)
    ensures r == Validate(numbers, winSize)
  {
    if winSize > |numbers| {
      return Panic;
    }
    var idx := winSize;
    while idx < |numbers| - winSize
      invariant winSize <= idx
      invariant ValidateFrom(numbers, winSize, winSize) == ValidateFrom(numbers, winSize, idx)
    {
      var last := numbers[idx];
      var found := FindPair(numbers, idx - winSize, idx, last);
      if !found {
        return Done(Verdict(false, last));
      }
      idx := idx + 1;
    }
    return Done(Verdict(true, 0));
  }

  function Sum(s: seq<nat>): nat {
    if s == [] then 0 else Sum(s[..|s| - 1]) + s[|s| - 1]
  }

  /** The sum of the window of length `w` starting at `k`. */
  function WindowSum(numbers: seq<nat>, k: nat, w: nat): nat
    requires k + w <= |numbers|
  {
    Sum(numbers[k..k + w])
  }

  /** What `find_window_summing_to` reports: whether a window was found and
      where it starts (0 when none was). */
  datatype Window = Window(found: bool, offset: nat)

  /** The windows of length `w` from start `i` on, in order. */
  function FindWindowFrom(numbers: seq<nat>, w: nat, target: nat, i: nat): (r: Window)
    decreases |numbers| - i
    ensures r.found ==> i <= r.offset && r.offset + w <= |numbers| && WindowSum(numbers, r.offset, w) == target
    ensures r.found ==> forall k :: i <= k < r.offset ==> WindowSum(numbers, k, w) != target
    ensures !r.found ==> r.offset == 0 && forall k :: i <= k && k + w <= |numbers| ==> WindowSum(numbers, k, w) != target
  {
    if i + w > |numbers| then Window(false, 0)
    else if WindowSum(numbers, i, w) == target then Window(true, i)
    else FindWindowFrom(numbers, w, target, i + 1)
  }

  /** `find_window_summing_to`: `windows(0)` panics; otherwise the first
      window of length `w` adding up to the target. */
  function FindWindow(numbers: seq<nat>, w: nat, target: nat): Outcome<Window> {
    if w == 0 then Panic else Done(FindWindowFrom(numbers, w, target, 0))
  }

  /** What `find_variable_window_summing_to` reports. */
  datatype SizedWindow = SizedWindow(found: bool, size: nat, offset: nat)

  /** Some window of length `w` adds up to the target. */
  predicate SomeWindow(numbers: seq<nat>, w: nat, target: nat) {
    exists k :: 0 <= k <= |numbers| - w && WindowSum(numbers, k, w) == target
  }

  /** `find_variable_window_summing_to` over the sizes from `size` up to
      998: the first size with a matching window, and that window's first
      offset. */
  function FindVariableFrom(numbers: seq<nat>, target: nat, size: nat): (r: SizedWindow)
    decreases 999 - size
    ensures r.found ==>
      (size <= r.size < 999 && r.offset + r.size <= |numbers| && WindowSum(numbers, r.offset, r.size) == target)
    ensures r.found ==> forall k :: 0 <= k < r.offset ==> WindowSum(numbers, k, r.size) != target
    ensures r.found ==> forall s :: size <= s < r.size ==> !SomeWindow(numbers, s, target)
    ensures !r.found ==> r == SizedWindow(false, 0, 0) && forall s :: size <= s < 999 ==> !SomeWindow(numbers, s, target)
  {
    if size >= 999 then SizedWindow(false, 0, 0)
    else
      var wnd := FindWindowFrom(numbers, size, target, 0);
      if wnd.found then SizedWindow(true, size, wnd.offset)
      else
        var r := FindVariableFrom(numbers, target, size + 1);
        assert !SomeWindow(numbers, size, target);
        r
  }

  /** `find_variable_window_summing_to`: sizes 2 to 998. */
  function FindVariableWindow(numbers: seq<nat>, target: nat): SizedWindow {
    FindVariableFrom(numbers, target, 2)
  }
}
