/** The slices of Rust's `str` API the puzzles lean on, over `seq<char>`.

    Rust strings are UTF-8 byte buffers; here a string is its sequence of
    Unicode scalar values.  Every splitting operation below works on whole
    characters, which is what Rust's `split`, `split_terminator`, `trim` and
    `split_whitespace` do as well. */
module Strings {

  /** Unicode's White_Space property, which `char::is_whitespace` (and so
      `trim` and `split_whitespace`) tests. */
  predicate IsWhiteSpace(c: char) {
    || ('\U{0009}' <= c <= '\U{000D}')
    || c == '\U{0020}' || c == '\U{0085}' || c == '\U{00A0}' || c == '\U{1680}'
    || ('\U{2000}' <= c <= '\U{200A}')
    || c == '\U{2028}' || c == '\U{2029}' || c == '\U{202F}' || c == '\U{205F}' || c == '\U{3000}'
  }

  predicate IsAsciiDigit(c: char) {
    '0' <= c <= '9'
  }

  /** `s.split(sep)`: the pieces between separators, always at least one. */
  function Split(s: string, sep: char): (pieces: seq<string>)
    ensures |pieces| >= 1
    ensures forall i :: 0 <= i < |pieces| ==> sep !in pieces[i]
    decreases |s|
  {
    if |s| == 0 then [""]
    else if s[0] == sep then [""] + Split(s[1..], sep)
    else
      var rest := Split(s[1..], sep);
      [[s[0]] + rest[0]] + rest[1..]
  }

  /** `pieces.join(sep)`, the inverse of `Split`. */
  function Join(pieces: seq<string>, sep: char): string
    requires |pieces| >= 1
    decreases |pieces|
  {
    if |pieces| == 1 then pieces[0]
    else pieces[0] + [sep] + Join(pieces[1..], sep)
  }

  lemma {:induction false} JoinSplit(s: string, sep: char)
    ensures Join(Split(s, sep), sep) == s
    decreases |s|
  {
    if |s| == 0 {
    } else if s[0] == sep {
      JoinSplit(s[1..], sep);
      assert s == [sep] + s[1..];
    } else {
      JoinSplit(s[1..], sep);
      var rest := Split(s[1..], sep);
      if |rest| == 1 {
        assert s == [s[0]] + s[1..];
      } else {
        assert rest == [rest[0]] + rest[1..];
        assert Join(rest, sep) == rest[0] + [sep] + Join(rest[1..], sep);
        assert s == [s[0]] + s[1..];
      }
    }
  }

  lemma {:induction false} SplitJoin(pieces: seq<string>, sep: char)
    requires |pieces| >= 1
    requires forall i :: 0 <= i < |pieces| ==> sep !in pieces[i]
    ensures Split(Join(pieces, sep), sep) == pieces
    decreases |pieces|, |pieces[0]|
  {
    var p := pieces[0];
    if |p| == 0 {
      if |pieces| > 1 {
        SplitJoin(pieces[1..], sep);
        var j := Join(pieces, sep);
        assert j == [sep] + Join(pieces[1..], sep);
        assert j[1..] == Join(pieces[1..], sep);
        assert pieces == [""] + pieces[1..];
      }
    } else {
      var tail := [p[1..]] + pieces[1..];
      assert forall i :: 0 <= i < |tail| ==> sep !in tail[i] by {
        forall i | 0 <= i < |tail| ensures sep !in tail[i] {
          if i > 0 { assert tail[i] == pieces[i]; }
        }
      }
      SplitJoin(tail, sep);
      var j := Join(pieces, sep);
      assert j == [p[0]] + Join(tail, sep) by {
        if |pieces| == 1 {
          assert p == [p[0]] + p[1..];
        } else {
          assert tail[1..] == pieces[1..];
          assert p == [p[0]] + p[1..];
        }
      }
      assert j[0] == p[0] && j[1..] == Join(tail, sep);
      assert p == [p[0]] + p[1..];
    }
  }

  /** Text without the separator is a single piece. */
  lemma {:induction false} SplitNoSep(s: string, sep: char)
    requires sep !in s
    ensures Split(s, sep) == [s]
    decreases |s|
  {
    if s != [] {
      SplitNoSep(s[1..], sep);
      assert s == [s[0]] + s[1..];
    }
  }

  /** `s.split_terminator(sep)`: like `Split`, but an empty last piece is dropped. */
  function SplitTerminator(s: string, sep: char): (pieces: seq<string>)
    ensures forall i :: 0 <= i < |pieces| ==> sep !in pieces[i]
  {
    var all := Split(s, sep);
    if all[|all| - 1] == "" then all[..|all| - 1] else all
  }

  /** Drops a separator that ends `s`; the pieces of `split_terminator` are
      exactly the pieces of `split` on what remains. */
  lemma SplitTerminatorIsSplitOfTrimmed(s: string, sep: char)
    requires s != [] && s[|s| - 1] != sep
    ensures SplitTerminator(s, sep) == Split(s, sep)
  {
    var all := Split(s, sep);
    JoinSplit(s, sep);
    if all[|all| - 1] == "" {
      JoinLastEmpty(all, sep);
    }
  }

  lemma {:induction false} JoinLastEmpty(pieces: seq<string>, sep: char)
    requires |pieces| >= 2 && pieces[|pieces| - 1] == ""
    ensures var j := Join(pieces, sep); |j| > 0 && j[|j| - 1] == sep
    decreases |pieces|
  {
    if |pieces| > 2 {
      JoinLastEmpty(pieces[1..], sep);
    }
  }

  function TrimStart(s: string): (r: string)
    ensures |r| <= |s| && r == s[|s| - |r|..]
    ensures r == [] || !IsWhiteSpace(r[0])
    ensures forall i :: 0 <= i < |s| - |r| ==> IsWhiteSpace(s[i])
  {
    if s != [] && IsWhiteSpace(s[0]) then TrimStart(s[1..]) else s
  }

  function TrimEnd(s: string): (r: string)
    ensures |r| <= |s| && r == s[..|r|]
    ensures r == [] || !IsWhiteSpace(r[|r| - 1])
    ensures forall i :: |r| <= i < |s| ==> IsWhiteSpace(s[i])
  {
    if s != [] && IsWhiteSpace(s[|s| - 1]) then TrimEnd(s[..|s| - 1]) else s
  }

  /** `s.trim()`: leading and trailing white space removed. */
  function Trim(s: string): string {
    TrimEnd(TrimStart(s))
  }

  /** The longest prefix of `s` free of white space. */
  function Run(s: string): (w: string)
    ensures |w| <= |s| && w == s[..|w|]
    ensures forall i :: 0 <= i < |w| ==> !IsWhiteSpace(w[i])
    ensures |w| == |s| || IsWhiteSpace(s[|w|])
  {
    if s == [] || IsWhiteSpace(s[0]) then [] else [s[0]] + Run(s[1..])
  }

  /** `s.split_whitespace()`: the maximal white-space-free runs, none empty. */
  function SplitWhitespace(s: string): (words: seq<string>)
    ensures forall i :: 0 <= i < |words| ==> words[i] != []
    ensures forall i, k :: 0 <= i < |words| && 0 <= k < |words[i]| ==> !IsWhiteSpace(words[i][k])
    decreases |s|
  {
    if s == [] then []
    else if IsWhiteSpace(s[0]) then SplitWhitespace(s[1..])
    else
      var w := Run(s);
      [w] + SplitWhitespace(s[|w|..])
  }

  /** The number of bytes UTF-8 uses for `c`. */
  function Utf8Len(c: char): nat {
    if c as int < 0x80 then 1
    else if c as int < 0x800 then 2
    else if c as int < 0x1_0000 then 3
    else 4
  }

  /** The byte offset of the `k`-th character, as `char_indices` reports it. */
  function ByteOffset(s: string, k: nat): (r: nat)
    requires k <= |s|
    ensures r >= k
  {
    if k == 0 then 0 else ByteOffset(s, k - 1) + Utf8Len(s[k - 1])
  }

  /** `s.len()`: the length of `s` in bytes. */
  function ByteLen(s: string): nat {
    ByteOffset(s, |s|)
  }

  predicate IsAscii(s: string) {
    forall i :: 0 <= i < |s| ==> s[i] as int < 0x80
  }

  /** On ASCII text byte offsets are character positions. */
  lemma {:induction false} AsciiByteOffset(s: string, k: nat)
    requires IsAscii(s) && k <= |s|
    ensures ByteOffset(s, k) == k
  {
    if k > 0 {
      AsciiByteOffset(s, k - 1);
    }
  }
}
