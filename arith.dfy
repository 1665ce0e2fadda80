/** Facts about multiplication, division and remainder that the solver does
    not find unaided. */
module Arith {

  lemma MulMono(a: int, b: int, c: nat)
    requires a >= b
    ensures a * c >= b * c
  {
    assert a * c - b * c == (a - b) * c;
  }

  /** Division and remainder are determined by any decomposition
      `n == m * w + r` with `0 <= r < w`. */
  lemma DivModUnique(n: int, m: int, r: int, w: int)
    requires w > 0 && 0 <= r < w && n == m * w + r
    ensures n % w == r && n / w == m
  {
    var q := n / w;
    var r' := n % w;
    assert n == q * w + r';
    var d := q - m;
    assert d * w == r - r' by {
      assert q * w - m * w == (q - m) * w;
    }
    if d >= 1 {
      MulMono(d, 1, w);
    } else if d <= -1 {
      MulMono(-1, d, w);
    }
  }

  lemma MulSucc(m: nat, d: nat)
    ensures m * d + d == (m + 1) * d
  {
  }

  lemma ModAddStep(a: nat, b: nat, w: nat)
    requires w > 0
    ensures (a % w + b) % w == (a + b) % w
  {
    var q := a / w;
    var r := (a % w + b) % w;
    var s := (a % w + b) / w;
    assert a % w + b == s * w + r;
    assert a == q * w + a % w;
    assert a + b == (q + s) * w + r by {
      assert (q + s) * w == q * w + s * w;
    }
    DivModUnique(a + b, q + s, r, w);
  }

  /** `ceil(n / d)` is the least k with `k * d >= n`. */
  function CeilDiv(n: nat, d: nat): nat
    requires d > 0
  {
    (n + d - 1) / d
  }

  lemma CeilDivExact(n: nat, d: nat, k: nat)
    requires d > 0 && n <= k * d && (k == 0 || (k - 1) * d < n)
    ensures k == CeilDiv(n, d)
  {
    if k == 0 {
      DivModUnique(n + d - 1, 0, n + d - 1, d);
    } else {
      assert (k - 1) * d == k * d - d;
      DivModUnique(n + d - 1, k, n + d - 1 - k * d, d);
    }
  }

  lemma CeilDivAbove(n: nat, d: nat, k: nat)
    requires d > 0 && k * d < n
    ensures k < CeilDiv(n, d)
  {
    var v := CeilDiv(n, d);
    assert v * d + (n + d - 1) % d == n + d - 1;
    if v <= k {
      MulMono(k, v, d);
    }
  }

  function Pow2(n: nat): (r: nat)
    ensures r >= 1
  {
    if n == 0 then 1 else 2 * Pow2(n - 1)
  }

  lemma {:induction false} Pow2Mono(m: nat, n: nat)
    requires m <= n
    ensures Pow2(m) <= Pow2(n)
    decreases n
  {
    if m < n {
      Pow2Mono(m, n - 1);
    }
  }
}
