/** Rust's `str::parse` for the integer types, radix 10.

    An unsigned parse accepts an optional leading '+', then one or more ASCII
    digits; a signed parse also accepts a leading '-'.  A sign alone, an empty
    string, any other character or a value outside the type's range is an
    error. */
module Decimal {
  import opened Outcomes
  import opened Strings

  const U8_MAX: nat := 0xFF
  const U32_MAX: nat := 0xFFFF_FFFF
  const U64_MAX: nat := 0xFFFF_FFFF_FFFF_FFFF
  const I32_MIN: int := -0x8000_0000
  const I32_MAX: int := 0x7FFF_FFFF

  predicate AllDigits(s: string) {
    forall i :: 0 <= i < |s| ==> IsAsciiDigit(s[i])
  }

  function DigitValue(c: char): nat
    requires IsAsciiDigit(c)
  {
    (c as int - '0' as int) as nat
  }

  /** The value of a digit string, most significant digit first. */
  function DigitsValue(s: string): nat
    requires AllDigits(s)
    decreases |s|
  {
    if s == [] then 0 else 10 * DigitsValue(s[..|s| - 1]) + DigitValue(s[|s| - 1])
  }

  /** The digits after an optional leading '+'. */
  function UnsignedBody(s: string): string {
    if s != [] && s[0] == '+' then s[1..] else s
  }

  /** `s.parse::<uN>()` where `max` is the type's largest value. */
  function ParseUnsigned(s: string, max: nat): Option<nat> {
    var body := UnsignedBody(s);
    if body != [] && AllDigits(body) && DigitsValue(body) <= max then Some(DigitsValue(body)) else None
  }

  /** `s.parse::<iN>()` for the range `min..=max`. */
  function ParseSigned(s: string, min: int, max: int): (r: Option<int>)
    requires min <= 0 <= max
    ensures r.Some? ==> min <= r.value <= max
  {
    if s != [] && s[0] == '-' then
      var body := s[1..];
      if body != [] && AllDigits(body) && min <= -(DigitsValue(body) as int) then Some(-(DigitsValue(body) as int)) else None
    else
      var body := UnsignedBody(s);
      if body != [] && AllDigits(body) && DigitsValue(body) <= max then Some(DigitsValue(body) as int) else None
  }

  /** `s` is decimal text for `n`: an optional '+', then one or more ASCII
      digits (leading zeros allowed) whose value is `n`. */
  predicate UnsignedText(s: string, n: nat) {
    var body := UnsignedBody(s);
    body != [] && AllDigits(body) && DigitsValue(body) == n
  }

  /** `s` is signed decimal text for `n`: unsigned text for a non-negative
      `n`, or a '-' followed by one or more digits whose value is `-n`. */
  predicate SignedText(s: string, n: int) {
    || (n >= 0 && UnsignedText(s, n))
    || (|s| > 1 && s[0] == '-' && AllDigits(s[1..]) && -(DigitsValue(s[1..]) as int) == n)
  }

  /** An unsigned parse yields `n` exactly when `s` is decimal text for a
      value `n` within the type's range; other text is an error. */
  lemma ParseUnsignedMeaning(s: string, max: nat, n: nat)
    ensures ParseUnsigned(s, max) == Some(n) <==> UnsignedText(s, n) && n <= max
  {
  }

  /** A signed parse yields `n` exactly when `s` is signed decimal text for
      a value `n` within `min..=max`; other text is an error. */
  lemma ParseSignedMeaning(s: string, min: int, max: int, n: int)
    requires min <= 0 <= max
    ensures ParseSigned(s, min, max) == Some(n) <==> SignedText(s, n) && min <= n <= max
  {
    if s != [] && s[0] == '-' {
      assert UnsignedBody(s) == s && !AllDigits(s);
    }
  }

  /** Decimal rendering without leading zeros (Rust's `Display` for integers). */
  function ShowNat(n: nat): (s: string)
    ensures s != [] && AllDigits(s)
    decreases n
  {
    if n < 10 then [('0' as int + n) as char]
    else ShowNat(n / 10) + [('0' as int + n % 10) as char]
  }

  lemma {:induction false} ShowNatValue(n: nat)
    ensures DigitsValue(ShowNat(n)) == n
    decreases n
  {
    if n >= 10 {
      ShowNatValue(n / 10);
      var s := ShowNat(n);
      assert s[..|s| - 1] == ShowNat(n / 10);
    }
  }

  /** Parsing inverts rendering: every value in range comes back unchanged. */
  lemma ParseShow(n: nat, max: nat)
    requires n <= max
    ensures ParseUnsigned(ShowNat(n), max) == Some(n)
  {
    ShowNatValue(n);
    assert UnsignedBody(ShowNat(n)) == ShowNat(n);
  }

  /** Decimal rendering of a signed integer: a '-' before a negative one. */
  function ShowInt(n: int): (s: string)
    ensures s != []
  {
    if n < 0 then "-" + ShowNat(-n) else ShowNat(n)
  }

  /** Signed parsing inverts signed rendering for every value in range. */
  lemma ParseShowSigned(n: int, min: int, max: int)
    requires min <= 0 <= max && min <= n <= max
    ensures ParseSigned(ShowInt(n), min, max) == Some(n)
  {
    if n < 0 {
      ShowNatValue(-n);
      assert ShowInt(n)[1..] == ShowNat(-n);
    } else {
      ShowNatValue(n);
      assert ShowNat(n)[0] != '-' && ShowNat(n)[0] != '+';
      assert UnsignedBody(ShowNat(n)) == ShowNat(n);
    }
  }
}
