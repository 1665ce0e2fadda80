/** Day 14: a docking program that writes 36-bit values under a mask.
    Version 1 masks the value; version 2 masks the address, where an `X`
    floats and stands for both bits. A `u64` machine word is a sequence of
    64 bits, bit `i` being the one of weight 2^i. */
module DockingData {
  import opened Arith

  type Word = w: seq<bool> | |w| == 64 witness seq(64, _ => false)

  function Zero(): Word { seq(64, _ => false) }
  /** `1_u64`. */
  function One(): Word { seq(64, i => i == 0) }
  /** `u64::MAX`. */
  function AllOnes(): Word { seq(64, _ => true) }
  /** `u64::MAX - 1`. */
  function AllButLowest(): Word { seq(64, i => i != 0) }
  /** `2_u64.pow(36) - 1`. */
  function Low36(): Word { seq(64, i => i < 36) }

  function And(a: Word, b: Word): Word {
    seq(64, i requires 0 <= i < 64 => a[i] && b[i])
  }

  function Or(a: Word, b: Word): Word {
    seq(64, i requires 0 <= i < 64 => a[i] || b[i])
  }

  /** `rotate_left(n)`: bit `i` of the result is bit `i - n` (modulo the
      width) of `a`. */
  function Rotl(a: Word, n: nat): Word {
    seq(64, i requires 0 <= i < 64 => a[(i - n) % 64])
  }

  /** `(w << 1) | b`: the bits move up one place, the top bit is lost and
      `b` comes in at the bottom. */
  function Shl1(w: Word, b: bool): Word {
    seq(64, i requires 0 <= i < 64 => if i == 0 then b else w[i - 1])
  }

  /** The word of `n` modulo 2^64. */
  function FromNat(n: nat): Word {
    seq(64, i requires 0 <= i < 64 => (n / Pow2(i)) % 2 == 1)
  }

  /** The number a word stands for, reading its `k` lowest bits. */
  function ValueUpTo(w: Word, k: nat): nat
    requires k <= 64
  {
    if k == 0 then 0 else ValueUpTo(w, k - 1) + (if w[k - 1] then Pow2(k - 1) else 0)
  }

  function Value(w: Word): nat {
    ValueUpTo(w, 64)
  }

  /** No bit from 36 up is set. */
  predicate Fits36(w: Word) {
    forall i :: 36 <= i < 64 ==> !w[i]
  }

  /** `1_u64.rotate_left(idx as u32)`: the `or` mask's update word. */
  function OrUpdate(idx: nat): Word {
    Rotl(One(), idx)
  }

  /** `(u64::MAX - 1).rotate_left(idx as u32) & (2_u64.pow(36) - 1)`: the
      `and` mask's update word. */
  function AndUpdate(idx: nat): Word {
    And(Rotl(AllButLowest(), idx), Low36())
  }

  /** Rotating the single bit 1 sets bit `j` modulo the width alone. */
  lemma OrUpdateBit(j: nat, i: nat)
    requires i < 64
    ensures OrUpdate(j)[i] == (i == j % 64)
  {
  }

  /** The `and` update clears bit `j` modulo the width and every bit from
      36 up. */
  lemma AndUpdateBit(j: nat, i: nat)
    requires i < 64
    ensures AndUpdate(j)[i] == (i < 36 && i != j % 64)
  {
  }

  // ---------------------------------------------------------------------
  // Instructions and the mask builders.

  datatype Instr =
    | SetMask(maskStr: string, andMask: Word, orMask: Word)
    | SetMem(addr: Word, val: Word)

  /** The character `idx` places from the right end of `m`. */
  function FromRight(m: string, idx: nat): char
    requires idx < |m|
  {
    m[|m| - 1 - idx]
  }

  /** `new_and_mask` over the `n` rightmost characters. */
  function AndMaskUpTo(m: string, n: nat): Word
    requires n <= |m|
  {
    if n == 0 then AllOnes()
    else
      var mask := AndMaskUpTo(m, n - 1);
      if FromRight(m, n - 1) == '0' then And(mask, AndUpdate(n - 1))
      else mask
  }

  /** `new_or_mask` over the `n` rightmost characters. */
  function OrMaskUpTo(m: string, n: nat): Word
    requires n <= |m|
  {
    if n == 0 then Zero()
    else
      var mask := OrMaskUpTo(m, n - 1);
      if FromRight(m, n - 1) == '1' then Or(mask, OrUpdate(n - 1))
      else mask
  }

  function AndMaskOf(m: string): Word {
    AndMaskUpTo(m, |m|)
  }

  function OrMaskOf(m: string): Word {
    OrMaskUpTo(m, |m|)
  }

  method NewAndMask(m: string) returns (mask: Word)
    ensures mask == AndMaskOf(m)
  {
    mask := AllOnes();
    for idx := 0 to |m|
      invariant mask == AndMaskUpTo(m, idx)
    {
      if m[|m| - 1 - idx] == '0' {
        mask := And(mask, AndUpdate(idx));
      }
    }
  }

  method NewOrMask(m: string) returns (mask: Word)
    ensures mask == OrMaskOf(m)
  {
    mask := Zero();
    for idx := 0 to |m|
      invariant mask == OrMaskUpTo(m, idx)
    {
      if m[|m| - 1 - idx] == '1' {
        mask := Or(mask, OrUpdate(idx));
      }
    }
  }

  method NewSetMask(m: string) returns (instr: Instr)
    ensures instr.SetMask? && instr.maskStr == m
    ensures instr.andMask == AndMaskOf(m) && instr.orMask == OrMaskOf(m)
  {
    var andMask := NewAndMask(m);
    var orMask := NewOrMask(m);
    instr := SetMask(m, andMask, orMask);
  }

  /** Bit `i` of the `or` mask is set exactly when a `1` stands at a
      position from the right that is `i` modulo the word width. */
  lemma {:induction false} OrMaskUpToBits(m: string, n: nat, i: nat)
    requires n <= |m| && i < 64
    ensures OrMaskUpTo(m, n)[i] <==>
      exists idx :: 0 <= idx < n && idx % 64 == i && FromRight(m, idx) == '1'
  {
    if n > 0 {
      var j := n - 1;
      OrMaskUpToBits(m, j, i);
      if FromRight(m, j) == '1' {
        OrUpdateBit(j, i);
      }
    }
  }

  /** Bit `i < 36` of the `and` mask is clear exactly when a `0` stands at a
      position from the right that is `i` modulo the word width; the bits
      from 36 up are clear as soon as the mask holds any `0`. */
  lemma {:induction false} AndMaskUpToBits(m: string, n: nat, i: nat)
    requires n <= |m| && i < 64
    ensures i < 36 ==> (AndMaskUpTo(m, n)[i] <==>
      !exists idx :: 0 <= idx < n && idx % 64 == i && FromRight(m, idx) == '0')
    ensures i >= 36 ==> (AndMaskUpTo(m, n)[i] <==>
      !exists idx :: 0 <= idx < n && FromRight(m, idx) == '0')
  {
    if n > 0 {
      var j := n - 1;
      AndMaskUpToBits(m, j, i);
      if FromRight(m, j) == '0' {
        AndUpdateBit(j, i);
      }
    }
  }

  /** For masks no wider than the word: bit `i` of the `or` mask is set iff
      the `i`-th character from the right is `1`. */
  lemma OrMaskBits(m: string, i: nat)
    requires |m| <= 64 && i < 64
    ensures OrMaskOf(m)[i] <==> i < |m| && FromRight(m, i) == '1'
  {
    OrMaskUpToBits(m, |m|, i);
    if i < |m| && FromRight(m, i) == '1' {
      assert i % 64 == i;
    }
  }

  /** For masks no wider than the word: bit `i < 36` of the `and` mask is
      clear iff the `i`-th character from the right is `0`. */
  lemma AndMaskBits(m: string, i: nat)
    requires |m| <= 64 && i < 36
    ensures !AndMaskOf(m)[i] <==> i < |m| && FromRight(m, i) == '0'
  {
    AndMaskUpToBits(m, |m|, i);
    if i < |m| && FromRight(m, i) == '0' {
      assert i % 64 == i;
    }
  }

  /** The masks of the first test's mask string: every one of the 36 low
      bits but bit 1 for `and`, bit 6 alone for `or`. */
  lemma MaskExample()
    ensures AndMaskOf("XXXXXXXXXXXXXXXXXXXXXXXXXXXXX1XXXX0X") == seq(64, i => i < 36 && i != 1)
    ensures OrMaskOf("XXXXXXXXXXXXXXXXXXXXXXXXXXXXX1XXXX0X") == seq(64, i => i == 6)
  {
    var m := "XXXXXXXXXXXXXXXXXXXXXXXXXXXXX1XXXX0X";
    forall i | 0 <= i < 64
      ensures AndMaskOf(m)[i] == (i < 36 && i != 1)
      ensures OrMaskOf(m)[i] == (i == 6)
    {
      OrMaskBits(m, i);
      if i < 36 {
        AndMaskBits(m, i);
      } else {
        AndMaskUpToBits(m, 36, i);
        assert FromRight(m, 1) == '0';
      }
    }
  }

  // ---------------------------------------------------------------------
  // Version 1: the mask applies to the value.

  /** The masks in force and the memory written so far. */
  datatype V1State = V1State(andMask: Word, orMask: Word, mem: map<Word, Word>)

  /** `val & and_mask | or_mask`. */
  function Masked(val: Word, s: V1State): Word {
    Or(And(val, s.andMask), s.orMask)
  }

  /** Under the masks of a string of `X`, `0` and `1` no wider than 36, a
      `1` forces its bit on, a `0` forces it off and an `X` keeps the bit
      of the value; the bits from 36 up survive only under a mask with no
      `0` at all. */
  lemma MaskedBits(m: string, val: Word, i: nat)
    requires |m| <= 36 && i < 64
    ensures var r := Masked(val, V1State(AndMaskOf(m), OrMaskOf(m), map[]));
      r[i] == if i < |m| && FromRight(m, i) == '1' then true
              else if i < |m| && FromRight(m, i) == '0' then false
              else if i < 36 then val[i]
              else val[i] && forall idx :: 0 <= idx < |m| ==> FromRight(m, idx) != '0'
  {
    OrMaskBits(m, i);
    if i < 36 {
      AndMaskBits(m, i);
    } else {
      AndMaskUpToBits(m, |m|, i);
    }
  }

  function StepV1(s: V1State, instr: Instr): V1State {
    match instr
    case SetMask(_, a, o) => s.(andMask := a, orMask := o)
    case SetMem(addr, val) => s.(mem := s.mem[addr := Masked(val, s)])
  }

  /** The state after running `prog` from empty memory and zero masks. */
  function RunV1(prog: seq<Instr>): V1State {
    if prog == [] then V1State(Zero(), Zero(), map[])
    else StepV1(RunV1(prog[..|prog| - 1]), prog[|prog| - 1])
  }

  method RunProgramV1(prog: seq<Instr>) returns (mem: map<Word, Word>)
    ensures mem == RunV1(prog).mem
  {
    mem := map[];
    var andMask := Zero();
    var orMask := Zero();
    for i := 0 to |prog|
      invariant V1State(andMask, orMask, mem) == RunV1(prog[..i])
    {
      assert prog[..i + 1][..i] == prog[..i];
      match prog[i]
      case SetMask(_, a, o) =>
        andMask, orMask := a, o;
      case SetMem(addr, val) =>
        mem := mem[addr := Or(And(val, andMask), orMask)];
    }
    assert prog[..|prog|] == prog;
  }

  predicate WritesTo(instr: Instr, a: Word) {
    instr.SetMem? && instr.addr == a
  }

  /** Version 1 holds a value at `a` iff some instruction writes `a`. */
  lemma {:induction false} V1Written(prog: seq<Instr>, a: Word)
    ensures a in RunV1(prog).mem <==> exists j :: 0 <= j < |prog| && WritesTo(prog[j], a)
  {
    if prog != [] {
      var n := |prog| - 1;
      var pre := prog[..n];
      V1Written(pre, a);
      if !WritesTo(prog[n], a) {
        if a in RunV1(prog).mem {
          var j :| 0 <= j < n && WritesTo(pre[j], a);
          assert prog[j] == pre[j];
        }
        if exists j :: 0 <= j < |prog| && WritesTo(prog[j], a) {
          var j :| 0 <= j < |prog| && WritesTo(prog[j], a);
          assert pre[j] == prog[j];
        }
      }
    }
  }

  /** The value version 1 holds at `a` is that of the last write to `a`,
      under the masks in force just before it. */
  lemma {:induction false} V1LastWrite(prog: seq<Instr>, a: Word, j: nat)
    requires j < |prog| && WritesTo(prog[j], a)
    requires forall k :: j < k < |prog| ==> !WritesTo(prog[k], a)
    ensures a in RunV1(prog).mem && RunV1(prog).mem[a] == Masked(prog[j].val, RunV1(prog[..j]))
  {
    var n := |prog| - 1;
    var pre := prog[..n];
    if j < n {
      assert pre[j] == prog[j] && pre[..j] == prog[..j];
      assert forall k :: j < k < n ==> pre[k] == prog[k];
      V1LastWrite(pre, a, j);
    }
  }

  /** With no `SetMask` the masks stay zero. */
  lemma {:induction false} V1MasksNone(prog: seq<Instr>)
    requires forall j :: 0 <= j < |prog| ==> !prog[j].SetMask?
    ensures RunV1(prog).andMask == Zero() && RunV1(prog).orMask == Zero()
  {
    if prog != [] {
      var n := |prog| - 1;
      var pre := prog[..n];
      assert forall j :: 0 <= j < n ==> pre[j] == prog[j];
      V1MasksNone(pre);
    }
  }

  /** The masks in force are those of the last `SetMask`. */
  lemma {:induction false} V1MasksLast(prog: seq<Instr>, j: nat)
    requires j < |prog| && prog[j].SetMask?
    requires forall k :: j < k < |prog| ==> !prog[k].SetMask?
    ensures RunV1(prog).andMask == prog[j].andMask && RunV1(prog).orMask == prog[j].orMask
  {
    var n := |prog| - 1;
    var pre := prog[..n];
    if j < n {
      assert pre[j] == prog[j];
      assert forall k :: j < k < n ==> pre[k] == prog[k];
      V1MasksLast(pre, j);
    }
  }

  // ---------------------------------------------------------------------
  // Version 2: the mask applies to the address.

  /** `{:0>36}`: `s` left-padded with `c` to at least `w` characters. */
  function PadLeft(s: string, w: nat, c: char): (r: string)
    ensures |r| == if |s| >= w then |s| else w
    ensures forall k :: 0 <= k < |r| ==>
      r[k] == if k < |r| - |s| then c else s[k - (|r| - |s|)]
  {
    if |s| >= w then s else seq(w - |s|, _ => c) + s
  }

  function BitChar(b: bool): char {
    if b then '1' else '0'
  }

  /** The `n` lowest bits of `x`, most significant first. */
  function BinString(x: Word, n: nat): (r: string)
    requires n <= 64
    ensures |r| == n
    ensures forall j :: 0 <= j < n ==> r[j] == BitChar(x[n - 1 - j])
  {
    if n == 0 then [] else [BitChar(x[n - 1])] + BinString(x, n - 1)
  }

  /** One more than the place of the highest set bit among the lowest `w`;
      0 when none is set. */
  function WidthFrom(x: Word, w: nat): (r: nat)
    requires w <= 64
    ensures r <= w
    ensures r > 0 ==> x[r - 1]
    ensures forall i :: r <= i < w ==> !x[i]
  {
    if w == 0 || x[w - 1] then w else WidthFrom(x, w - 1)
  }

  /** `{:036b}`: binary, most significant first, zero-padded to 36 digits. */
  function Format36(x: Word): (r: string)
    ensures 36 <= |r| <= 64
  {
    var w := WidthFrom(x, 64);
    BinString(x, if w >= 36 then w else 36)
  }

  /** A word that fits in 36 bits formats to exactly its 36 low bits. */
  lemma Format36Width(x: Word)
    requires Fits36(x)
    ensures Format36(x) == BinString(x, 36)
  {
  }

  /** One pair of the zip: the address bit under `0`, `1` under `1`, `X`
      under `X`, and nothing under any other character. */
  function Combine(ac: char, mc: char): seq<char> {
    if mc == '0' then [ac]
    else if mc == '1' then ['1']
    else if mc == 'X' then ['X']
    else []
  }

  /** The first `n` pairs of the zip. */
  function ZipRule(bin: string, mask: string, n: nat): seq<char>
    requires n <= |bin| && n <= |mask|
  {
    if n == 0 then [] else ZipRule(bin, mask, n - 1) + Combine(bin[n - 1], mask[n - 1])
  }

  /** `x_mask_for_addr`: the zip, as long as the shorter of the two, of the
      binary of the address with the mask's ones set and the padded mask. */
  function XMaskOf(mask: string, addr: Word): seq<char> {
    var bin := Format36(Or(addr, OrMaskOf(mask)));
    var padded := PadLeft(mask, 36, '0');
    ZipRule(bin, padded, if |bin| <= |padded| then |bin| else |padded|)
  }

  method XMaskForAddr(mask: string, addr: Word) returns (newChars: seq<char>)
    ensures newChars == XMaskOf(mask, addr)
  {
    var orMask := NewOrMask(mask);
    var addr1 := Or(addr, orMask);
    var padded := PadLeft(mask, 36, '0');
    var bin := Format36(addr1);
    var n := if |bin| <= |padded| then |bin| else |padded|;
    newChars := [];
    for k := 0 to n
      invariant newChars == ZipRule(bin, padded, k)
    {
      var ac, mc := bin[k], padded[k];
      if mc == '0' {
        newChars := newChars + [ac];
      } else if mc == '1' {
        newChars := newChars + ['1'];
      } else if mc == 'X' {
        newChars := newChars + ['X'];
      }
    }
  }

  predicate MaskChars(s: string) {
    forall k :: 0 <= k < |s| ==> s[k] == 'X' || s[k] == '0' || s[k] == '1'
  }

  /** Over a mask of `X`, `0` and `1` the zip keeps one symbol per pair. */
  lemma {:induction false} ZipRuleAt(bin: string, mask: string, n: nat)
    requires n <= |bin| && n <= |mask| && MaskChars(mask)
    ensures |ZipRule(bin, mask, n)| == n
    ensures forall k :: 0 <= k < n ==>
      ZipRule(bin, mask, n)[k] == if mask[k] == '0' then bin[k] else mask[k]
  {
    if n > 0 {
      ZipRuleAt(bin, mask, n - 1);
    }
  }

  /** For a mask of at most 36 symbols and an address that keeps within 36
      bits once or-ed with the mask's ones: 36 symbols, `1` and `X` where
      the left-padded mask has them, and the bit of `addr | or_mask` where
      it has `0`. */
  lemma XMaskMeaning(mask: string, addr: Word)
    requires MaskChars(mask) && |mask| <= 36 && Fits36(Or(addr, OrMaskOf(mask)))
    ensures var x := XMaskOf(mask, addr);
      var padded := PadLeft(mask, 36, '0');
      |x| == 36 && MaskChars(x) &&
      forall k :: 0 <= k < 36 ==>
        x[k] == if padded[k] == '0' then BitChar(Or(addr, OrMaskOf(mask))[35 - k]) else padded[k]
  {
    var padded := PadLeft(mask, 36, '0');
    var addr1 := Or(addr, OrMaskOf(mask));
    Format36Width(addr1);
    ZipRuleAt(Format36(addr1), padded, 36);
  }

  /** The word of a number below 2^k has no bit from k up. */
  lemma FromNatHigh(n: nat, k: nat, i: nat)
    requires n < Pow2(k) && k <= i < 64
    ensures !FromNat(n)[i]
  {
    Pow2Mono(k, i);
    DivModUnique(n, 0, n, Pow2(i));
  }

  /** Bit `i` of the word of `n`. */
  lemma FromNatBit(n: nat, i: nat)
    requires i < 64
    ensures FromNat(n)[i] == ((n / Pow2(i)) % 2 == 1)
  {
  }

  /** Address 42 with the ones of `X1001X` set is 58: it fits in 36 bits,
      bit 3 is set and bit 2 is clear. */
  lemma Address58(m: string, a: Word)
    requires m == "X1001X" && a == FromNat(42)
    ensures var addr1 := Or(a, OrMaskOf(m));
      Fits36(addr1) && addr1[3] && !addr1[2]
  {
    var addr1 := Or(a, OrMaskOf(m));
    forall i | 36 <= i < 64
      ensures !addr1[i]
    {
      FromNatHigh(42, 6, i);
      OrMaskBits(m, i);
    }
    FromNatBit(42, 2);
    FromNatBit(42, 3);
    assert Pow2(2) == 4 && Pow2(3) == 8;
    assert 42 / 4 == 10 && 42 / 8 == 5;
    OrMaskBits(m, 2);
    OrMaskBits(m, 3);
  }

  /** Symbol `k` of the floating mask, under the conditions of
      `XMaskMeaning`. */
  lemma XMaskAt(mask: string, addr: Word, k: nat)
    requires MaskChars(mask) && |mask| <= 36 && Fits36(Or(addr, OrMaskOf(mask))) && k < 36
    ensures |XMaskOf(mask, addr)| == 36
    ensures XMaskOf(mask, addr)[k] ==
      if k < 36 - |mask| then BitChar(Or(addr, OrMaskOf(mask))[35 - k])
      else if mask[k - (36 - |mask|)] == '0' then BitChar(Or(addr, OrMaskOf(mask))[35 - k])
      else mask[k - (36 - |mask|)]
  {
    XMaskMeaning(mask, addr);
  }

  /** The source's `x_mask_for_addr` test: mask `X1001X`, address 42. */
  lemma XMaskExample(m: string, a: Word)
    requires m == "X1001X" && a == FromNat(42)
    ensures var x := XMaskOf(m, a);
      |x| == 36 && x[30..] == "X1101X"
  {
    Address58(m, a);
    assert MaskChars(m);
    var x := XMaskOf(m, a);
    XMaskAt(m, a, 30);
    XMaskAt(m, a, 31);
    XMaskAt(m, a, 32);
    XMaskAt(m, a, 33);
    XMaskAt(m, a, 34);
    XMaskAt(m, a, 35);
    assert x[30..] == [x[30], x[31], x[32], x[33], x[34], x[35]];
  }

  // ---------------------------------------------------------------------
  // Floating addresses.

  /** `enumerate_addresses_rec`: the bits chosen so far are `num`; a `0`
      or `X` at `pos` first extends it by 0, a `1` or `X` then by 1. */
  function Enum(xm: seq<char>, pos: nat, num: Word): seq<Word>
    requires pos <= |xm|
    decreases |xm| - pos
  {
    if pos == |xm| then [num]
    else
      (if xm[pos] == 'X' || xm[pos] == '0' then Enum(xm, pos + 1, Shl1(num, false)) else []) +
      (if xm[pos] == 'X' || xm[pos] == '1' then Enum(xm, pos + 1, Shl1(num, true)) else [])
  }

  /** The recursion with the accumulator it pushes into. */
  method EnumerateAddressesRec(xm: seq<char>, pos: nat, num: Word, accum: seq<Word>)
    returns (out: seq<Word>)
    requires pos <= |xm|
    ensures out == accum + Enum(xm, pos, num)
    decreases |xm| - pos
  {
    if pos == |xm| {
      return accum + [num];
    }
    ghost var zero := if xm[pos] == 'X' || xm[pos] == '0' then Enum(xm, pos + 1, Shl1(num, false)) else [];
    ghost var one := if xm[pos] == 'X' || xm[pos] == '1' then Enum(xm, pos + 1, Shl1(num, true)) else [];
    assert Enum(xm, pos, num) == zero + one;
    out := accum;
    if xm[pos] == 'X' || xm[pos] == '0' {
      out := EnumerateAddressesRec(xm, pos + 1, Shl1(num, false), out);
    }
    assert out == accum + zero;
    if xm[pos] == 'X' || xm[pos] == '1' {
      out := EnumerateAddressesRec(xm, pos + 1, Shl1(num, true), out);
    }
    assert out == accum + zero + one;
  }

  function Addresses(mask: string, addr: Word): seq<Word> {
    Enum(XMaskOf(mask, addr), 0, Zero())
  }

  method EnumerateAddresses(mask: string, addr: Word) returns (addrs: seq<Word>)
    ensures addrs == Addresses(mask, addr)
  {
    var xm := XMaskForAddr(mask, addr);
    addrs := EnumerateAddressesRec(xm, 0, Zero(), []);
  }

  /** The number of `X` from position `pos` on. */
  function Floating(xm: seq<char>, pos: nat): nat
    requires pos <= |xm|
    decreases |xm| - pos
  {
    if pos == |xm| then 0 else (if xm[pos] == 'X' then 1 else 0) + Floating(xm, pos + 1)
  }

  /** Each `X` doubles the addresses, each `0` or `1` keeps their number. */
  lemma {:induction false} EnumCount(xm: seq<char>, pos: nat, num: Word)
    requires pos <= |xm| && MaskChars(xm)
    ensures |Enum(xm, pos, num)| == Pow2(Floating(xm, pos))
    decreases |xm| - pos
  {
    if pos < |xm| {
      var zero, one := Enum(xm, pos + 1, Shl1(num, false)), Enum(xm, pos + 1, Shl1(num, true));
      var n := Pow2(Floating(xm, pos + 1));
      EnumCount(xm, pos + 1, Shl1(num, false));
      EnumCount(xm, pos + 1, Shl1(num, true));
      if xm[pos] == 'X' {
        assert Enum(xm, pos, num) == zero + one;
        assert Floating(xm, pos) == Floating(xm, pos + 1) + 1;
        assert Pow2(Floating(xm, pos)) == 2 * n;
      } else if xm[pos] == '0' {
        assert Enum(xm, pos, num) == zero + [];
        assert Floating(xm, pos) == Floating(xm, pos + 1);
      } else {
        assert xm[pos] == '1';
        assert Enum(xm, pos, num) == [] + one;
        assert Floating(xm, pos) == Floating(xm, pos + 1);
      }
    }
  }

  /** The bit strings that agree with `xm` from `pos` on, each `X` tried
      as `0` before `1`. */
  function Choices(xm: seq<char>, pos: nat): seq<string>
    requires pos <= |xm|
    decreases |xm| - pos
  {
    if pos == |xm| then [[]]
    else if xm[pos] == 'X' then Prefixed('0', Choices(xm, pos + 1)) + Prefixed('1', Choices(xm, pos + 1))
    else if xm[pos] == '0' then Prefixed('0', Choices(xm, pos + 1))
    else if xm[pos] == '1' then Prefixed('1', Choices(xm, pos + 1))
    else []
  }

  function Prefixed(c: char, cs: seq<string>): (r: seq<string>)
    ensures |r| == |cs|
  {
    if cs == [] then [] else [[c] + cs[0]] + Prefixed(c, cs[1..])
  }

  lemma {:induction false} PrefixedAt(c: char, cs: seq<string>, i: nat)
    requires i < |cs|
    ensures Prefixed(c, cs)[i] == [c] + cs[i]
  {
    if i > 0 {
      PrefixedAt(c, cs[1..], i - 1);
    }
  }

  /** `s` is a string of bits that agrees with every fixed symbol of `xm`
      from `pos` on. */
  predicate Agrees(xm: seq<char>, pos: nat, s: string)
    requires pos <= |xm|
  {
    |s| == |xm| - pos &&
    forall k :: 0 <= k < |s| ==>
      (s[k] == '0' || s[k] == '1') && (xm[pos + k] != 'X' ==> s[k] == xm[pos + k])
  }

  /** `Agrees`, one symbol at a time. */
  predicate Fits(xm: seq<char>, pos: nat, s: string)
    requires pos <= |xm|
    decreases |xm| - pos
  {
    if pos == |xm| then s == []
    else
      s != [] && (s[0] == '0' || s[0] == '1') && (xm[pos] != 'X' ==> s[0] == xm[pos]) &&
      Fits(xm, pos + 1, s[1..])
  }

  lemma {:induction false} FitsAgrees(xm: seq<char>, pos: nat, s: string)
    requires pos <= |xm|
    ensures Fits(xm, pos, s) <==> Agrees(xm, pos, s)
    decreases |xm| - pos
  {
    if pos < |xm| && s != [] {
      FitsAgrees(xm, pos + 1, s[1..]);
      if Agrees(xm, pos + 1, s[1..]) {
        forall k | 0 < k < |s|
          ensures s[k] == s[1..][k - 1] && xm[pos + k] == xm[pos + 1 + (k - 1)]
        {
        }
      }
    }
  }

  lemma {:induction false} ChoicesFit(xm: seq<char>, pos: nat, s: string)
    requires pos <= |xm|
    ensures Count(Choices(xm, pos), s) == if Fits(xm, pos, s) then 1 else 0
    decreases |xm| - pos, 1
  {
    if pos == |xm| {
      ChoicesFitEnd(xm, pos, s);
    } else if xm[pos] == 'X' {
      ChoicesFitBoth(xm, pos, s);
    } else if xm[pos] == '0' || xm[pos] == '1' {
      ChoicesFitOne(xm, pos, s);
    } else {
      assert Choices(xm, pos) == [];
      assert !Fits(xm, pos, s);
    }
  }

  lemma ChoicesFitEnd(xm: seq<char>, pos: nat, s: string)
    requires pos == |xm|
    ensures Count(Choices(xm, pos), s) == if Fits(xm, pos, s) then 1 else 0
  {
    var cs := Choices(xm, pos);
    assert cs == [[]];
    assert cs[..0] == [];
    assert Count(cs, s) == Count([], s) + (if [] == s then 1 else 0);
    assert Fits(xm, pos, s) == (s == []);
  }

  lemma {:induction false} ChoicesFitBoth(xm: seq<char>, pos: nat, s: string)
    requires pos < |xm| && xm[pos] == 'X'
    ensures Count(Choices(xm, pos), s) == if Fits(xm, pos, s) then 1 else 0
    decreases |xm| - pos, 0
  {
    var rest := Choices(xm, pos + 1);
    PrefixedCount('0', rest, s);
    PrefixedCount('1', rest, s);
    if s != [] {
      ChoicesFit(xm, pos + 1, s[1..]);
    }
    CountAppend(Prefixed('0', rest), Prefixed('1', rest), s);
  }

  lemma {:induction false} ChoicesFitOne(xm: seq<char>, pos: nat, s: string)
    requires pos < |xm| && (xm[pos] == '0' || xm[pos] == '1')
    ensures Count(Choices(xm, pos), s) == if Fits(xm, pos, s) then 1 else 0
    decreases |xm| - pos, 0
  {
    var c := xm[pos];
    assert Choices(xm, pos) == Prefixed(c, Choices(xm, pos + 1));
    PrefixedCount(c, Choices(xm, pos + 1), s);
    if s != [] {
      ChoicesFit(xm, pos + 1, s[1..]);
    }
  }

  /** Every agreeing bit string is listed exactly once, and nothing else
      is listed. */
  lemma ChoicesExact(xm: seq<char>, pos: nat, s: string)
    requires pos <= |xm|
    ensures Count(Choices(xm, pos), s) == if Agrees(xm, pos, s) then 1 else 0
  {
    ChoicesFit(xm, pos, s);
    FitsAgrees(xm, pos, s);
  }

  /** The number of times `s` occurs in `cs`. */
  function Count(cs: seq<string>, s: string): nat {
    if cs == [] then 0 else Count(cs[..|cs| - 1], s) + (if cs[|cs| - 1] == s then 1 else 0)
  }

  lemma {:induction false} CountAppend(a: seq<string>, b: seq<string>, s: string)
    ensures Count(a + b, s) == Count(a, s) + Count(b, s)
    decreases |b|
  {
    if b == [] {
      assert a + b == a;
    } else {
      var n := |b| - 1;
      assert (a + b)[..|a + b| - 1] == a + b[..n];
      CountAppend(a, b[..n], s);
    }
  }

  /** `s` occurs in `Prefixed(c, cs)` as often as its tail in `cs` when its
      head is `c`, and not at all otherwise. */
  lemma {:induction false} PrefixedCount(c: char, cs: seq<string>, s: string)
    ensures Count(Prefixed(c, cs), s) == if s != [] && s[0] == c then Count(cs, s[1..]) else 0
  {
    if cs != [] {
      var h := [c] + cs[0];
      var tl := cs[1..];
      PrefixedCount(c, tl, s);
      assert Prefixed(c, cs) == [h] + Prefixed(c, tl);
      assert cs == [cs[0]] + tl;
      CountAppend([h], Prefixed(c, tl), s);
      assert [h][..0] == [] && [cs[0]][..0] == [];
      if s != [] {
        CountAppend([cs[0]], tl, s[1..]);
      }
      assert (h == s) <==> s != [] && s[0] == c && cs[0] == s[1..] by {
        if s != [] && cs[0] == s[1..] {
          assert s == [s[0]] + s[1..];
        }
      }
    }
  }

  /** `num` extended by the bits of `s`, most significant first. */
  function Extend(num: Word, s: string): Word
    decreases |s|
  {
    if s == [] then num else Extend(Shl1(num, s[0] == '1'), s[1..])
  }

  function ExtendAll(num: Word, cs: seq<string>): (r: seq<Word>)
    ensures |r| == |cs| && forall i :: 0 <= i < |cs| ==> r[i] == Extend(num, cs[i])
  {
    if cs == [] then [] else [Extend(num, cs[0])] + ExtendAll(num, cs[1..])
  }

  lemma {:induction false} ExtendAllConcat(num: Word, a: seq<string>, b: seq<string>)
    ensures ExtendAll(num, a + b) == ExtendAll(num, a) + ExtendAll(num, b)
  {
  }

  /** The enumerated addresses are the agreeing bit strings, in the order of
      `Choices`, shifted into `num`. */
  lemma {:induction false} EnumIsChoices(xm: seq<char>, pos: nat, num: Word)
    requires pos <= |xm|
    ensures Enum(xm, pos, num) == ExtendAll(num, Choices(xm, pos))
    decreases |xm| - pos, 1
  {
    if pos < |xm| {
      if xm[pos] == 'X' {
        EnumIsChoicesBoth(xm, pos, num);
      } else if xm[pos] == '0' || xm[pos] == '1' {
        EnumIsChoicesOne(xm, pos, num);
      }
    }
  }

  lemma {:induction false} EnumIsChoicesBoth(xm: seq<char>, pos: nat, num: Word)
    requires pos < |xm| && xm[pos] == 'X'
    ensures Enum(xm, pos, num) == ExtendAll(num, Choices(xm, pos))
    decreases |xm| - pos, 0
  {
    var rest := Choices(xm, pos + 1);
    EnumIsChoices(xm, pos + 1, Shl1(num, false));
    EnumIsChoices(xm, pos + 1, Shl1(num, true));
    ExtendPrefixed(num, '0', rest);
    ExtendPrefixed(num, '1', rest);
    ExtendAllConcat(num, Prefixed('0', rest), Prefixed('1', rest));
  }

  lemma {:induction false} EnumIsChoicesOne(xm: seq<char>, pos: nat, num: Word)
    requires pos < |xm| && (xm[pos] == '0' || xm[pos] == '1')
    ensures Enum(xm, pos, num) == ExtendAll(num, Choices(xm, pos))
    decreases |xm| - pos, 0
  {
    var c := xm[pos];
    var next := Shl1(num, c == '1');
    EnumIsChoices(xm, pos + 1, next);
    ExtendPrefixed(num, c, Choices(xm, pos + 1));
    EnumOne(xm, pos, num);
  }

  /** A fixed symbol extends by its own bit only. */
  lemma EnumOne(xm: seq<char>, pos: nat, num: Word)
    requires pos < |xm| && (xm[pos] == '0' || xm[pos] == '1')
    ensures Enum(xm, pos, num) == Enum(xm, pos + 1, Shl1(num, xm[pos] == '1'))
  {
    if xm[pos] == '1' {
      assert Enum(xm, pos, num) == [] + Enum(xm, pos + 1, Shl1(num, true));
    } else {
      assert Enum(xm, pos, num) == Enum(xm, pos + 1, Shl1(num, false)) + [];
    }
  }

  lemma ExtendPrefixed(num: Word, c: char, cs: seq<string>)
    ensures ExtendAll(num, Prefixed(c, cs)) == ExtendAll(Shl1(num, c == '1'), cs)
  {
    var r := ExtendAll(num, Prefixed(c, cs));
    forall i | 0 <= i < |cs|
      ensures r[i] == Extend(Shl1(num, c == '1'), cs[i])
    {
      PrefixedAt(c, cs, i);
      assert ([c] + cs[i])[1..] == cs[i];
    }
  }

  /** Shifting in `s` puts its last symbol at bit 0, its first at bit
      `|s| - 1`, and moves the bits of `num` up by `|s|`. */
  lemma {:induction false} ExtendBits(num: Word, s: string, i: nat)
    requires i < 64
    ensures Extend(num, s)[i] == if i < |s| then s[|s| - 1 - i] == '1' else num[i - |s|]
    decreases |s|
  {
    if s != [] {
      ExtendBits(Shl1(num, s[0] == '1'), s[1..], i);
    }
  }

  /** A string of `0` and `1` read as a binary number. */
  function BinValue(s: string): nat {
    if s == [] then 0 else 2 * BinValue(s[..|s| - 1]) + (if s[|s| - 1] == '1' then 1 else 0)
  }

  /** A leading digit adds its weight 2^(number of digits after it). */
  lemma {:induction false} BinValuePrepend(c: char, u: string)
    ensures BinValue([c] + u) == (if c == '1' then Pow2(|u|) else 0) + BinValue(u)
    decreases |u|
  {
    if u != [] {
      var n := |u| - 1;
      assert ([c] + u)[..|u|] == [c] + u[..n];
      BinValuePrepend(c, u[..n]);
    }
  }

  /** A word whose low bits spell `s` from the right stands, up to bit
      `k`, for the binary reading of the last `k` symbols of `s`. */
  lemma {:induction false} ValueUpToSuffix(w: Word, s: string, k: nat)
    requires k <= |s| && k <= 64
    requires forall i :: 0 <= i < k ==> w[i] == (s[|s| - 1 - i] == '1')
    ensures ValueUpTo(w, k) == BinValue(s[|s| - k..])
  {
    if k > 0 {
      ValueUpToSuffix(w, s, k - 1);
      var u := s[|s| - (k - 1)..];
      assert s[|s| - k..] == [s[|s| - k]] + u;
      BinValuePrepend(s[|s| - k], u);
    }
  }

  /** Clear bits add nothing to the value. */
  lemma {:induction false} ValueUpToClear(w: Word, j: nat, k: nat)
    requires j <= k <= 64
    requires forall i :: j <= i < k ==> !w[i]
    ensures ValueUpTo(w, k) == ValueUpTo(w, j)
  {
    if j < k {
      ValueUpToClear(w, j, k - 1);
    }
  }

  /** Shifting a string of at most 64 bits into zero gives the word of its
      binary reading. */
  lemma ExtendValue(s: string)
    requires |s| <= 64
    ensures Value(Extend(Zero(), s)) == BinValue(s)
  {
    var w := Extend(Zero(), s);
    forall i | 0 <= i < 64
      ensures w[i] == (i < |s| && s[|s| - 1 - i] == '1')
    {
      ExtendBits(Zero(), s, i);
    }
    ValueUpToSuffix(w, s, |s|);
    ValueUpToClear(w, |s|, 64);
    assert s[|s| - |s|..] == s;
  }

  /** `enumerate_addresses` yields 2^(number of `X`) addresses: the agreeing
      bit strings of the floating mask, each used once, in order, and each
      address holds its string's symbols at the matching bits. */
  lemma AddressesMeaning(mask: string, addr: Word)
    requires MaskChars(mask)
    ensures var xm := XMaskOf(mask, addr);
      |Addresses(mask, addr)| == Pow2(Floating(xm, 0)) &&
      Addresses(mask, addr) == ExtendAll(Zero(), Choices(xm, 0)) &&
      forall s :: Count(Choices(xm, 0), s) == if Agrees(xm, 0, s) then 1 else 0
  {
    var xm := XMaskOf(mask, addr);
    XMaskChars(mask, addr);
    EnumCount(xm, 0, Zero());
    EnumIsChoices(xm, 0, Zero());
    forall s
      ensures Count(Choices(xm, 0), s) == if Agrees(xm, 0, s) then 1 else 0
    {
      ChoicesExact(xm, 0, s);
    }
  }

  /** The floating mask holds only `X`, `0` and `1`. */
  lemma XMaskChars(mask: string, addr: Word)
    requires MaskChars(mask)
    ensures MaskChars(XMaskOf(mask, addr))
  {
    var bin := Format36(Or(addr, OrMaskOf(mask)));
    var padded := PadLeft(mask, 36, '0');
    var n := if |bin| <= |padded| then |bin| else |padded|;
    assert MaskChars(padded) by {
      forall k | 0 <= k < |padded|
        ensures padded[k] == 'X' || padded[k] == '0' || padded[k] == '1'
      {
        if k >= |padded| - |mask| {
          assert padded[k] == mask[k - (|padded| - |mask|)];
        }
      }
    }
    ZipRuleAt(bin, padded, n);
    var z := ZipRule(bin, padded, n);
    forall k | 0 <= k < |z|
      ensures z[k] == 'X' || z[k] == '0' || z[k] == '1'
    {
      if padded[k] == '0' {
        assert z[k] == bin[k] == BitChar(Or(addr, OrMaskOf(mask))[|bin| - 1 - k]);
      }
    }
  }

  function Values(ws: seq<Word>): (r: seq<nat>)
    ensures |r| == |ws| && forall i :: 0 <= i < |ws| ==> r[i] == Value(ws[i])
  {
    if ws == [] then [] else [Value(ws[0])] + Values(ws[1..])
  }

  function BinValues(cs: seq<string>): (r: seq<nat>)
    ensures |r| == |cs| && forall i :: 0 <= i < |cs| ==> r[i] == BinValue(cs[i])
  {
    if cs == [] then [] else [BinValue(cs[0])] + BinValues(cs[1..])
  }

  /** Every choice from `pos` on has one symbol per remaining position. */
  lemma {:induction false} ChoicesLength(xm: seq<char>, pos: nat, i: nat)
    requires pos <= |xm| && i < |Choices(xm, pos)|
    ensures |Choices(xm, pos)[i]| == |xm| - pos
    decreases |xm| - pos
  {
    if pos < |xm| {
      var rest := Choices(xm, pos + 1);
      if xm[pos] == 'X' {
        if i < |rest| {
          PrefixedAt('0', rest, i);
          ChoicesLength(xm, pos + 1, i);
        } else {
          PrefixedAt('1', rest, i - |rest|);
          ChoicesLength(xm, pos + 1, i - |rest|);
        }
      } else {
        PrefixedAt(xm[pos], rest, i);
        ChoicesLength(xm, pos + 1, i);
      }
    }
  }

  /** For a floating mask no wider than the word, the enumerated addresses
      are the binary readings of the agreeing bit strings, in order. */
  lemma EnumValues(xm: seq<char>)
    requires |xm| <= 64
    ensures Values(Enum(xm, 0, Zero())) == BinValues(Choices(xm, 0))
  {
    var cs := Choices(xm, 0);
    EnumIsChoices(xm, 0, Zero());
    forall i | 0 <= i < |cs|
      ensures Value(Extend(Zero(), cs[i])) == BinValue(cs[i])
    {
      ChoicesLength(xm, 0, i);
      ExtendValue(cs[i]);
    }
  }

  /** `(w << 1) | b` over the lowest `k` bits. */
  lemma {:induction false} ValueUpToShl1(w: Word, b: bool, k: nat)
    requires 1 <= k <= 64
    ensures ValueUpTo(Shl1(w, b), k) == 2 * ValueUpTo(w, k - 1) + (if b then 1 else 0)
  {
    if k > 1 {
      ValueUpToShl1(w, b, k - 1);
    }
  }

  /** While the top bit is clear, `(w << 1) | b` doubles the value and adds
      `b`. */
  lemma ValueShl1(w: Word, b: bool)
    requires !w[63]
    ensures Value(Shl1(w, b)) == 2 * Value(w) + (if b then 1 else 0)
  {
    ValueUpToShl1(w, b, 64);
  }

  lemma ValueZero()
    ensures Value(Zero()) == 0
  {
    ValueUpToClear(Zero(), 0, 64);
  }

  /** `enumerate_addresses_rec` on unbounded numbers. */
  function NatEnum(xm: seq<char>, pos: nat, num: nat): seq<nat>
    requires pos <= |xm|
    decreases |xm| - pos
  {
    if pos == |xm| then [num]
    else if xm[pos] == 'X' then NatEnum(xm, pos + 1, 2 * num) + NatEnum(xm, pos + 1, 2 * num + 1)
    else if xm[pos] == '0' then NatEnum(xm, pos + 1, 2 * num)
    else if xm[pos] == '1' then NatEnum(xm, pos + 1, 2 * num + 1)
    else []
  }

  lemma {:induction false} ValuesAppend(a: seq<Word>, b: seq<Word>)
    ensures Values(a + b) == Values(a) + Values(b)
  {
  }

  /** When the bits still to come fit above `num`, no shift loses a bit: the
      words enumerated read as the numbers enumerated. */
  lemma {:induction false} EnumNumeric(xm: seq<char>, pos: nat, num: Word)
    requires pos <= |xm| && |xm| - pos <= 64 && Value(num) < Pow2(64 - (|xm| - pos))
    ensures Values(Enum(xm, pos, num)) == NatEnum(xm, pos, Value(num))
    decreases |xm| - pos, 1
  {
    if pos < |xm| {
      ShiftInBound(num, |xm| - pos);
      if xm[pos] == 'X' {
        EnumNumericBoth(xm, pos, num);
      } else if xm[pos] == '0' || xm[pos] == '1' {
        EnumNumericOne(xm, pos, num);
      }
    }
  }

  lemma {:induction false} EnumNumericBoth(xm: seq<char>, pos: nat, num: Word)
    requires pos < |xm| && xm[pos] == 'X' && |xm| - pos <= 64
    requires Value(Shl1(num, false)) == 2 * Value(num) < Pow2(64 - (|xm| - pos - 1))
    requires Value(Shl1(num, true)) == 2 * Value(num) + 1 < Pow2(64 - (|xm| - pos - 1))
    ensures Values(Enum(xm, pos, num)) == NatEnum(xm, pos, Value(num))
    decreases |xm| - pos, 0
  {
    var num0, num1 := Shl1(num, false), Shl1(num, true);
    EnumNumeric(xm, pos + 1, num0);
    EnumNumeric(xm, pos + 1, num1);
    ValuesAppend(Enum(xm, pos + 1, num0), Enum(xm, pos + 1, num1));
  }

  lemma {:induction false} EnumNumericOne(xm: seq<char>, pos: nat, num: Word)
    requires pos < |xm| && (xm[pos] == '0' || xm[pos] == '1') && |xm| - pos <= 64
    requires Value(Shl1(num, false)) == 2 * Value(num) < Pow2(64 - (|xm| - pos - 1))
    requires Value(Shl1(num, true)) == 2 * Value(num) + 1 < Pow2(64 - (|xm| - pos - 1))
    ensures Values(Enum(xm, pos, num)) == NatEnum(xm, pos, Value(num))
    decreases |xm| - pos, 0
  {
    EnumNumeric(xm, pos + 1, Shl1(num, xm[pos] == '1'));
    EnumOne(xm, pos, num);
  }

  lemma ShiftInBound(num: Word, d: nat)
    requires 1 <= d <= 64 && Value(num) < Pow2(64 - d)
    ensures Value(Shl1(num, false)) == 2 * Value(num) < Pow2(64 - (d - 1))
    ensures Value(Shl1(num, true)) == 2 * Value(num) + 1 < Pow2(64 - (d - 1))
  {
    Pow2Mono(64 - d, 63);
    TopBitClear(num);
    ValueShl1(num, false);
    ValueShl1(num, true);
    assert Pow2(64 - (d - 1)) == 2 * Pow2(64 - d);
  }

  /** A word whose value is below 2^63 has its top bit clear. */
  lemma TopBitClear(w: Word)
    requires Value(w) < Pow2(63)
    ensures !w[63]
  {
  }

  /** The source's first `enumerate_addresses_rec` test. */
  lemma EnumExample1(xm: seq<char>)
    requires xm == "X1101X"
    ensures Values(Enum(xm, 0, Zero())) == [26, 27, 58, 59]
  {
    ValueZero();
    EnumNumeric(xm, 0, Zero());
    NatEnumExample1();
  }

  lemma NatEnumExample1()
    ensures NatEnum("X1101X", 0, 0) == [26, 27, 58, 59]
  {
  }

  /** The source's second `enumerate_addresses_rec` test. */
  lemma EnumExample2(xm: seq<char>)
    requires xm == "1X0XX"
    ensures Values(Enum(xm, 0, Zero())) == [16, 17, 18, 19, 24, 25, 26, 27]
  {
    ValueZero();
    EnumNumeric(xm, 0, Zero());
    NatEnumExample2();
  }

  lemma NatEnumExample2()
    ensures NatEnum("1X0XX", 0, 0) == [16, 17, 18, 19, 24, 25, 26, 27]
  {
  }

  /** Writing `v` at every address of `addrs`, in order. */
  function WriteAll(mem: map<Word, Word>, addrs: seq<Word>, v: Word): map<Word, Word> {
    if addrs == [] then mem else WriteAll(mem, addrs[..|addrs| - 1], v)[addrs[|addrs| - 1] := v]
  }

  /** After the writes the listed addresses hold `v` and no other address
      changes. */
  lemma {:induction false} WriteAllMeaning(mem: map<Word, Word>, addrs: seq<Word>, v: Word, a: Word)
    ensures a in WriteAll(mem, addrs, v) <==> a in mem || a in addrs
    ensures a in addrs ==> WriteAll(mem, addrs, v)[a] == v
    ensures a !in addrs && a in mem ==> WriteAll(mem, addrs, v)[a] == mem[a]
  {
    if addrs != [] {
      var pre := addrs[..|addrs| - 1];
      WriteAllMeaning(mem, pre, v, a);
      assert addrs == pre + [addrs[|addrs| - 1]];
    }
  }

  /** The mask string in force and the memory written so far. */
  datatype V2State = V2State(mask: string, mem: map<Word, Word>)

  /** One instruction of version 2, `expand` giving the addresses a mask
      and an address stand for. */
  function StepV2(s: V2State, instr: Instr, expand: (string, Word) -> seq<Word>): V2State {
    match instr
    case SetMask(m, _, _) => s.(mask := m)
    case SetMem(addr, val) => s.(mem := WriteAll(s.mem, expand(s.mask, addr), val))
  }

  /** The state after running `prog` from empty memory and an empty mask. */
  function RunV2With(prog: seq<Instr>, expand: (string, Word) -> seq<Word>): V2State {
    if prog == [] then V2State("", map[])
    else StepV2(RunV2With(prog[..|prog| - 1], expand), prog[|prog| - 1], expand)
  }

  /** Version 2 with the floating addresses of `enumerate_addresses`. */
  function RunV2(prog: seq<Instr>): V2State {
    RunV2With(prog, Addresses)
  }

  method RunProgramV2(prog: seq<Instr>) returns (mem: map<Word, Word>)
    ensures mem == RunV2(prog).mem
  {
    mem := map[];
    var mask: string := "";
    for i := 0 to |prog|
      invariant V2State(mask, mem) == RunV2With(prog[..i], Addresses)
    {
      assert prog[..i + 1][..i] == prog[..i];
      match prog[i]
      case SetMask(m, _, _) =>
        mask := m;
      case SetMem(addr, val) =>
        var addrs := EnumerateAddresses(mask, addr);
        mem := WriteAddresses(mem, addrs, val);
    }
    assert prog[..|prog|] == prog;
  }

  /** The inner loop of `run_program_v2`: `val` inserted at each address. */
  method WriteAddresses(mem0: map<Word, Word>, addrs: seq<Word>, val: Word)
    returns (mem: map<Word, Word>)
    ensures mem == WriteAll(mem0, addrs, val)
  {
    mem := mem0;
    for j := 0 to |addrs|
      invariant mem == WriteAll(mem0, addrs[..j], val)
    {
      assert addrs[..j + 1][..j] == addrs[..j];
      mem := mem[addrs[j] := val];
    }
    assert addrs[..|addrs|] == addrs;
  }

  /** Instruction `j` writes `a` in version 2: one of the addresses it
      stands for under the mask in force is `a`. */
  predicate FloatsTo(prog: seq<Instr>, j: nat, a: Word, expand: (string, Word) -> seq<Word>)
    requires j < |prog|
  {
    prog[j].SetMem? && a in expand(RunV2With(prog[..j], expand).mask, prog[j].addr)
  }

  /** Whether instruction `j` writes `a` does not depend on what follows. */
  lemma FloatsToPrefix(prog: seq<Instr>, n: nat, j: nat, a: Word, expand: (string, Word) -> seq<Word>)
    requires j < n <= |prog|
    ensures FloatsTo(prog[..n], j, a, expand) == FloatsTo(prog, j, a, expand)
  {
    assert prog[..n][j] == prog[j] && prog[..n][..j] == prog[..j];
  }

  /** Version 2 holds a value at `a` iff some instruction's addresses
      include `a`, whatever the expansion of floating addresses. */
  lemma {:induction false} V2Written(prog: seq<Instr>, a: Word, expand: (string, Word) -> seq<Word>)
    ensures a in RunV2With(prog, expand).mem <==>
      exists j :: 0 <= j < |prog| && FloatsTo(prog, j, a, expand)
  {
    if prog != [] {
      var n := |prog| - 1;
      var pre := prog[..n];
      V2Written(pre, a, expand);
      var before := RunV2With(pre, expand);
      if prog[n].SetMem? {
        WriteAllMeaning(before.mem, expand(before.mask, prog[n].addr), prog[n].val, a);
      }
      if !FloatsTo(prog, n, a, expand) {
        if a in RunV2With(prog, expand).mem {
          var j :| 0 <= j < n && FloatsTo(pre, j, a, expand);
          FloatsToPrefix(prog, n, j, a, expand);
        }
        if exists j :: 0 <= j < |prog| && FloatsTo(prog, j, a, expand) {
          var j :| 0 <= j < |prog| && FloatsTo(prog, j, a, expand);
          FloatsToPrefix(prog, n, j, a, expand);
        }
      }
    }
  }

  /** The value version 2 holds at `a` is that of the last instruction
      whose addresses include `a`, whatever the expansion. */
  lemma {:induction false} V2LastWrite(prog: seq<Instr>, a: Word, j: nat, expand: (string, Word) -> seq<Word>)
    requires j < |prog| && FloatsTo(prog, j, a, expand)
    requires forall k :: j < k < |prog| ==> !FloatsTo(prog, k, a, expand)
    ensures a in RunV2With(prog, expand).mem && RunV2With(prog, expand).mem[a] == prog[j].val
  {
    var n := |prog| - 1;
    var pre := prog[..n];
    var before := RunV2With(pre, expand);
    if prog[n].SetMem? {
      WriteAllMeaning(before.mem, expand(before.mask, prog[n].addr), prog[n].val, a);
    }
    if j < n {
      forall k | j <= k < n
        ensures FloatsTo(pre, k, a, expand) == FloatsTo(prog, k, a, expand)
      {
        FloatsToPrefix(prog, n, k, a, expand);
      }
      V2LastWrite(pre, a, j, expand);
      assert pre[j] == prog[j] && !FloatsTo(prog, n, a, expand);
    }
  }
}
