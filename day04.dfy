/** Day 4: passport records, their field validators, and the count of
    records that pass them all (4/src/main.rs). */
module PassportProcessing {
  import opened Outcomes
  import opened Strings
  import opened Decimal

  // ---------------------------------------------------------------------
  // Field validators

  /** `validate_int_field`: the text is a `u32` (a leading '+' is allowed)
      that lies in `min..=max`. */
  function ValidateIntField(v: string, min: nat, max: nat): (r: bool)
    ensures r <==> exists n :: ParseUnsigned(v, U32_MAX) == Some(n) && min <= n <= max
  {
    match ParseUnsigned(v, U32_MAX)
    case Some(n) => min <= n <= max
    case None => false
  }

  /** Every value of the range, written in decimal with or without '+', passes;
      a leading '-' never does. */
  lemma IntFieldAcceptsRange(n: nat, min: nat, max: nat)
    requires min <= n <= max <= U32_MAX
    ensures ValidateIntField(ShowNat(n), min, max)
    ensures ValidateIntField("+" + ShowNat(n), min, max)
    ensures !ValidateIntField("-" + ShowNat(n), min, max)
  {
    ParseShow(n, U32_MAX);
    assert UnsignedBody("+" + ShowNat(n)) == ShowNat(n);
    assert !AllDigits(UnsignedBody("-" + ShowNat(n))) by {
      assert ("-" + ShowNat(n))[0] == '-';
    }
  }

  function ValidateByr(v: string): bool { ValidateIntField(v, 1920, 2002) }
  function ValidateIyr(v: string): bool { ValidateIntField(v, 2010, 2020) }
  function ValidateEyr(v: string): bool { ValidateIntField(v, 2020, 2030) }

  /** The accepted heights for a unit: 150-193 cm or 59-76 in. */
  predicate HeightInRange(n: nat, unit: string) {
    (unit == "cm" && 150 <= n <= 193) || (unit == "in" && 59 <= n <= 76)
  }

  /** `validate_hgt`: `^([0-9]+)(cm|in)$`, then the number as a `u32` and
      the unit's range; a number too large for `u32` is rejected. */
  function ValidateHgt(v: string): bool {
    if |v| < 2 then false
    else
      var digits := v[..|v| - 2];
      var unit := v[|v| - 2..];
      if digits != [] && AllDigits(digits) && (unit == "cm" || unit == "in") then
        match ParseUnsigned(digits, U32_MAX)
        case Some(n) => HeightInRange(n, unit)
        case None => false
      else false
  }

  /** A height passes iff it is a non-empty digit string whose value fits a
      `u32`, followed by a unit, with the value in that unit's range. */
  lemma HgtShape(v: string)
    ensures ValidateHgt(v) <==> exists digits: string, unit: string ::
      && v == digits + unit && digits != [] && AllDigits(digits) && (unit == "cm" || unit == "in")
      && DigitsValue(digits) <= U32_MAX && HeightInRange(DigitsValue(digits), unit)
  {
    if |v| >= 2 {
      var digits := v[..|v| - 2];
      var unit := v[|v| - 2..];
      assert v == digits + unit;
      if digits != [] && AllDigits(digits) {
        assert IsAsciiDigit(digits[0]);
        assert UnsignedBody(digits) == digits;
      }
      forall d: string, u: string | v == d + u && (u == "cm" || u == "in")
        ensures d == digits && u == unit
      {
        assert |u| == 2;
        assert d == v[..|v| - 2];
      }
    } else {
      forall d: string, u: string | v == d + u && d != []
        ensures u != "cm" && u != "in"
      {
        assert |u| < 2;
      }
    }
  }

  predicate IsLowerHexDigit(c: char) {
    ('0' <= c <= '9') || ('a' <= c <= 'f')
  }

  /** `validate_hcl`: `^#[a-f0-9]{6}$`. */
  function ValidateHcl(v: string): bool {
    |v| == 7 && v[0] == '#' && forall i :: 1 <= i < 7 ==> IsLowerHexDigit(v[i])
  }

  const EYE_COLORS: set<string> := {"amb", "blu", "brn", "gry", "grn", "hzl", "oth"}

  /** `validate_ecl`: one of the seven colour names exactly. */
  function ValidateEcl(v: string): bool {
    v in EYE_COLORS
  }

  /** `validate_pid`: `^\d{9}$`, nine digits. */
  function ValidatePid(v: string): bool {
    |v| == 9 && AllDigits(v)
  }

  /** The year verdicts listed in the puzzle statement. */
  lemma YearExamples()
    ensures ValidateByr("2002") && !ValidateByr("2003")
  {
    assert ShowNat(2002) == "2002" && ShowNat(2003) == "2003";
    ParseShow(2002, U32_MAX);
    ParseShow(2003, U32_MAX);
  }

  /** The heights the puzzle statement lists as valid. */
  lemma HeightAccepted()
    ensures ValidateHgt("60in") && ValidateHgt("190cm")
  {
    assert ShowNat(60) == "60" && ShowNat(190) == "190";
    ParseShow(60, U32_MAX);
    ParseShow(190, U32_MAX);
    assert "60in"[..2] == "60" && "60in"[2..] == "in";
    assert "190cm"[..3] == "190" && "190cm"[3..] == "cm";
  }

  /** The heights the puzzle statement lists as invalid: out of range for
      the unit, and no unit at all. */
  lemma HeightRejected()
    ensures !ValidateHgt("190in") && !ValidateHgt("190")
  {
    assert ShowNat(190) == "190";
    ParseShow(190, U32_MAX);
    assert "190in"[..3] == "190" && "190in"[3..] == "in";
    assert "190"[1..] == "90";
  }

  /** The colour and passport-id verdicts listed in the puzzle statement. */
  lemma PatternExamples()
    ensures ValidateHcl("#123abc") && !ValidateHcl("#123abz") && !ValidateHcl("123abc")
    ensures ValidateEcl("brn") && !ValidateEcl("wat")
    ensures ValidatePid("000000001") && !ValidatePid("0123456789")
  {
    assert "#123abz"[6] == 'z';
    assert "123abc"[0] == '1';
  }

  // ---------------------------------------------------------------------
  // Field parsing

  /** `s.splitn(2, c)`: the text before the first `c` and the text after
      it, or `None` when there is no `c`. */
  function SplitOnce(s: string, c: char): (r: Option<(string, string)>)
    ensures r.None? <==> c !in s
    ensures r.Some? ==> s == r.value.0 + [c] + r.value.1 && c !in r.value.0
  {
    if s == [] then None
    else if s[0] == c then
      assert s == [] + [c] + s[1..];
      Some(([], s[1..]))
    else
      match SplitOnce(s[1..], c)
      case None => None
      case Some((a, b)) =>
        assert s == [s[0]] + s[1..];
        Some(([s[0]] + a, b))
  }

  /** Splitting `k + [c] + v` at its first `c` gives back `k` and `v`. */
  lemma {:induction false} SplitOnceOf(k: string, c: char, v: string)
    requires c !in k
    ensures SplitOnce(k + [c] + v, c) == Some((k, v))
    decreases |k|
  {
    var s := k + [c] + v;
    if k == [] {
      assert s[0] == c && s[1..] == v;
    } else {
      SplitOnceOf(k[1..], c, v);
      assert s[1..] == k[1..] + [c] + v;
      assert s[0] == k[0] && k[0] != c;
      assert [k[0]] + k[1..] == k;
    }
  }

  /** The key of a field that has a ':'. */
  function Key(fld: string): string
    requires ':' in fld
  {
    SplitOnce(fld, ':').value.0
  }

  /** Piece `i` is the last one naming its key. */
  predicate LastWithKey(fields: seq<string>, i: nat)
    requires forall j :: 0 <= j < |fields| ==> ':' in fields[j]
    requires i < |fields|
  {
    forall j :: i < j < |fields| ==> Key(fields[j]) != Key(fields[i])
  }

  /** The map `parse_fields` builds from the space-separated pieces: a piece
      without ':' panics (`pair[1]` is out of range), and a later piece
      with the same key overwrites the earlier one. */
  function FieldMap(fields: seq<string>): (r: Outcome<map<string, string>>)
    ensures r != OutOfFuel
    ensures r.Done? <==> forall j :: 0 <= j < |fields| ==> ':' in fields[j]
    decreases |fields|
  {
    if fields == [] then Done(map[])
    else
      var init := fields[..|fields| - 1];
      var last := fields[|fields| - 1];
      assert forall j :: 0 <= j < |init| ==> init[j] == fields[j];
      var prev := FieldMap(init);
      if prev.Panic? then Panic
      else
        match SplitOnce(last, ':')
        case Some((k, v)) => Done(prev.value[k := v])
        case None => Panic
  }

  /** The keys of the map are the keys of the fields. */
  lemma {:induction false} FieldMapKeys(fields: seq<string>)
    requires FieldMap(fields).Done?
    ensures forall k :: k in FieldMap(fields).value <==> exists j :: 0 <= j < |fields| && Key(fields[j]) == k
    decreases |fields|
  {
    if fields != [] {
      var init := fields[..|fields| - 1];
      assert forall j :: 0 <= j < |init| ==> init[j] == fields[j];
      FieldMapKeys(init);
      var m := FieldMap(fields).value;
      assert m == FieldMap(init).value[Key(fields[|fields| - 1]) := SplitOnce(fields[|fields| - 1], ':').value.1];
      forall k | k in m ensures exists j :: 0 <= j < |fields| && Key(fields[j]) == k {
        if k != Key(fields[|fields| - 1]) {
          var j :| 0 <= j < |init| && Key(init[j]) == k;
          assert Key(fields[j]) == k;
        }
      }
    }
  }

  /** Each key holds the value of the last field that names it. */
  lemma {:induction false} FieldMapLastWins(fields: seq<string>, i: nat)
    requires FieldMap(fields).Done? && i < |fields| && LastWithKey(fields, i)
    ensures Key(fields[i]) in FieldMap(fields).value
    ensures FieldMap(fields).value[Key(fields[i])] == SplitOnce(fields[i], ':').value.1
    decreases |fields|
  {
    var n := |fields| - 1;
    var init := fields[..n];
    assert forall j :: 0 <= j < |init| ==> init[j] == fields[j];
    var m := FieldMap(fields).value;
    assert m == FieldMap(init).value[Key(fields[n]) := SplitOnce(fields[n], ':').value.1];
    if i < n {
      assert Key(fields[n]) != Key(fields[i]);
      assert LastWithKey(init, i);
      FieldMapLastWins(init, i);
    }
  }

  /** `parse_fields`: splits the line at spaces (`split_terminator`) and
      inserts each field's key and value in turn. */
  method ParseFields(ln: string) returns (r: Outcome<map<string, string>>)
    ensures r == FieldMap(SplitTerminator(ln, ' '))
  {
    var fields := SplitTerminator(ln, ' ');
    var accum: map<string, string> := map[];
    for i := 0 to |fields|
      invariant FieldMap(fields[..i]) == Done(accum)
    {
      var pair := SplitOnce(fields[i], ':');
      assert fields[..i + 1][..i] == fields[..i];
      if pair.None? {
        FieldMapPanics(fields, i + 1);
        return Panic;
      }
      accum := accum[pair.value.0 := pair.value.1];
    }
    assert fields[..|fields|] == fields;
    r := Done(accum);
  }

  /** A field without ':' anywhere in a prefix makes the whole line panic. */
  lemma FieldMapPanics(fields: seq<string>, n: nat)
    requires n <= |fields| && FieldMap(fields[..n]) == Panic
    ensures FieldMap(fields) == Panic
  {
    var p := fields[..n];
    var j :| 0 <= j < |p| && ':' !in p[j];
    assert p[j] == fields[j];
  }

  // ---------------------------------------------------------------------
  // Records

  /** The records closed so far and the record being filled. */
  datatype Grouping = Grouping(entries: seq<map<string, string>>, accum: map<string, string>)

  /** One line of the input: an empty line pushes the current record, even
      an empty one; any other line adds its fields, overwriting keys. */
  function GroupStep(g: Grouping, ln: string): Outcome<Grouping> {
    if ln == [] then Done(Grouping(g.entries + [g.accum], map[]))
    else
      match FieldMap(SplitTerminator(ln, ' '))
      case Done(fields) => Done(Grouping(g.entries, g.accum + fields))
      case _ => Panic
  }

  /** The grouping after the first lines, panicking with the first bad line. */
  function Grouped(lines: seq<string>): Outcome<Grouping>
    decreases |lines|
  {
    if lines == [] then Done(Grouping([], map[]))
    else
      match Grouped(lines[..|lines| - 1])
      case Done(g) => GroupStep(g, lines[|lines| - 1])
      case _ => Panic
  }

  /** The records `main` collects: a trailing record is kept when it has a field. */
  function Records(lines: seq<string>): Outcome<seq<map<string, string>>> {
    match Grouped(lines)
    case Done(g) => Done(if |g.accum| > 0 then g.entries + [g.accum] else g.entries)
    case _ => Panic
  }

  function CountEmpty(lines: seq<string>): nat {
    if lines == [] then 0
    else CountEmpty(lines[..|lines| - 1]) + (if lines[|lines| - 1] == [] then 1 else 0)
  }

  /** Every empty line closes exactly one record. */
  lemma {:induction false} EmptyLinesCloseRecords(lines: seq<string>)
    requires Grouped(lines).Done?
    ensures |Grouped(lines).value.entries| == CountEmpty(lines)
    decreases |lines|
  {
    if lines != [] {
      EmptyLinesCloseRecords(lines[..|lines| - 1]);
    }
  }

  /** The record grouping of `main`, parsing each non-empty line. */
  method GroupRecords(lines: seq<string>) returns (r: Outcome<seq<map<string, string>>>)
    ensures r == Records(lines)
  {
    var entries: seq<map<string, string>> := [];
    var accum: map<string, string> := map[];
    for i := 0 to |lines|
      invariant Grouped(lines[..i]) == Done(Grouping(entries, accum))
    {
      assert lines[..i + 1][..i] == lines[..i];
      var ln := lines[i];
      if |ln| == 0 {
        entries := entries + [accum];
        accum := map[];
      } else {
        var entryFields := ParseFields(ln);
        if entryFields.Panic? {
          GroupedPanics(lines, i + 1);
          return Panic;
        }
        accum := accum + entryFields.value;
      }
    }
    assert lines[..|lines|] == lines;
    if |accum| > 0 {
      entries := entries + [accum];
    }
    r := Done(entries);
  }

  /** A panic on a prefix of the lines is a panic of the whole grouping. */
  lemma {:induction false} GroupedPanics(lines: seq<string>, n: nat)
    requires n <= |lines| && Grouped(lines[..n]) == Panic
    ensures Grouped(lines) == Panic
    decreases |lines| - n
  {
    if n < |lines| {
      assert lines[..n + 1][..n] == lines[..n];
      GroupedPanics(lines, n + 1);
    } else {
      assert lines[..n] == lines;
    }
  }

  /** Fields accumulate across lines, a blank line closes the record, two
      blank lines in a row close an empty one, and a last record with no
      blank line after it is kept. */
  lemma GroupingExample(k1: string, v1: string, k2: string, v2: string, k3: string, v3: string)
    requires ':' !in k1 && ' ' !in k1 && ' ' !in v1
    requires ':' !in k2 && ' ' !in k2 && ' ' !in v2
    requires ':' !in k3 && ' ' !in k3 && ' ' !in v3
    ensures Records([k1 + ":" + v1, k2 + ":" + v2, "", "", k3 + ":" + v3]) ==
      Done([map[k1 := v1] + map[k2 := v2], map[], map[k3 := v3]])
  {
    var m := map[k1 := v1] + map[k2 := v2];
    GroupedExample(k1, v1, k2, v2, k3, v3);
    assert |map[k3 := v3]| > 0;
    assert [m, map[]] + [map[k3 := v3]] == [m, map[], map[k3 := v3]];
  }

  lemma GroupedExample(k1: string, v1: string, k2: string, v2: string, k3: string, v3: string)
    requires ':' !in k1 && ' ' !in k1 && ' ' !in v1
    requires ':' !in k2 && ' ' !in k2 && ' ' !in v2
    requires ':' !in k3 && ' ' !in k3 && ' ' !in v3
    ensures Grouped([k1 + ":" + v1, k2 + ":" + v2, "", "", k3 + ":" + v3]) ==
      Done(Grouping([map[k1 := v1] + map[k2 := v2], map[]], map[k3 := v3]))
  {
    var l1, l2, l3 := k1 + ":" + v1, k2 + ":" + v2, k3 + ":" + v3;
    var m := map[k1 := v1] + map[k2 := v2];
    GroupedBlankLines(k1, v1, k2, v2);
    OneField(k3, v3);
    GroupedSnoc([l1, l2, "", ""], l3);
    assert [l1, l2, "", ""] + [l3] == [l1, l2, "", "", l3];
    assert map[] + map[k3 := v3] == map[k3 := v3];
  }

  lemma GroupedBlankLines(k1: string, v1: string, k2: string, v2: string)
    requires ':' !in k1 && ' ' !in k1 && ' ' !in v1
    requires ':' !in k2 && ' ' !in k2 && ' ' !in v2
    ensures Grouped([k1 + ":" + v1, k2 + ":" + v2, "", ""]) ==
      Done(Grouping([map[k1 := v1] + map[k2 := v2], map[]], map[]))
  {
    var l1, l2 := k1 + ":" + v1, k2 + ":" + v2;
    var m := map[k1 := v1] + map[k2 := v2];
    GroupedTwoFields(k1, v1, k2, v2);
    GroupedSnoc([l1, l2], "");
    assert [l1, l2] + [""] == [l1, l2, ""];
    assert [] + [m] == [m];
    GroupedSnoc([l1, l2, ""], "");
    assert [l1, l2, ""] + [""] == [l1, l2, "", ""];
    assert [m] + [map[]] == [m, map[]];
  }

  lemma GroupedTwoFields(k1: string, v1: string, k2: string, v2: string)
    requires ':' !in k1 && ' ' !in k1 && ' ' !in v1
    requires ':' !in k2 && ' ' !in k2 && ' ' !in v2
    ensures Grouped([k1 + ":" + v1, k2 + ":" + v2]) == Done(Grouping([], map[k1 := v1] + map[k2 := v2]))
  {
    var l1, l2 := k1 + ":" + v1, k2 + ":" + v2;
    OneField(k1, v1);
    OneField(k2, v2);
    GroupedSnoc([], l1);
    assert [] + [l1] == [l1];
    assert map[] + map[k1 := v1] == map[k1 := v1];
    GroupedSnoc([l1], l2);
    assert [l1] + [l2] == [l1, l2];
  }

  lemma GroupedSnoc(lines: seq<string>, ln: string)
    ensures Grouped(lines + [ln]) == if Grouped(lines).Done? then GroupStep(Grouped(lines).value, ln) else Panic
  {
    assert (lines + [ln])[..|lines|] == lines;
  }

  /** A line holding one field without spaces maps its key to its value. */
  lemma OneField(k: string, v: string)
    requires ':' !in k && ' ' !in k && ' ' !in v
    ensures k + ":" + v != []
    ensures FieldMap(SplitTerminator(k + ":" + v, ' ')) == Done(map[k := v])
  {
    var ln := k + ":" + v;
    assert ' ' !in ln by {
      assert forall i :: 0 <= i < |ln| ==> ln[i] == (if i < |k| then k[i] else if i == |k| then ':' else v[i - |k| - 1]);
    }
    SplitNoSep(ln, ' ');
    SplitOnceOf(k, ':', v);
    assert [ln][..0] == [];
  }

  /** The seven required fields with their validators, in the order `main`
      checks them; "cid" is not among them. */
  const REQUIRED: seq<(string, string -> bool)> := [
    ("byr", ValidateByr), ("iyr", ValidateIyr), ("eyr", ValidateEyr), ("hgt", ValidateHgt),
    ("hcl", ValidateHcl), ("ecl", ValidateEcl), ("pid", ValidatePid)]

  predicate Passes(entry: map<string, string>, i: nat)
    requires i < |REQUIRED|
  {
    REQUIRED[i].0 in entry && REQUIRED[i].1(entry[REQUIRED[i].0])
  }

  /** How many of the first `j` required fields are present and valid. */
  function Passing(entry: map<string, string>, j: nat): nat
    requires j <= |REQUIRED|
  {
    if j == 0 then 0 else Passing(entry, j - 1) + (if Passes(entry, j - 1) then 1 else 0)
  }

  /** A record is valid when every required field is present and valid. */
  predicate RecordValid(entry: map<string, string>) {
    forall i :: 0 <= i < |REQUIRED| ==> Passes(entry, i)
  }

  lemma {:induction false} PassingFull(entry: map<string, string>, j: nat)
    requires j <= |REQUIRED|
    ensures Passing(entry, j) <= j
    ensures Passing(entry, j) == j <==> forall i :: 0 <= i < j ==> Passes(entry, i)
  {
    if j > 0 {
      PassingFull(entry, j - 1);
    }
  }

  /** The "cid" field never changes a record's verdict. */
  lemma CidIgnored(entry: map<string, string>, v: string)
    ensures RecordValid(entry["cid" := v]) == RecordValid(entry)
  {
    var e := entry["cid" := v];
    forall i | 0 <= i < |REQUIRED| ensures Passes(e, i) == Passes(entry, i) {
      assert REQUIRED[i].0 != "cid" by {
        if i == 0 {} else if i == 1 {} else if i == 2 {} else if i == 3 {}
        else if i == 4 {} else if i == 5 {} else {}
      }
      var f := REQUIRED[i].0;
      assert (f in e) == (f in entry);
      if f in entry {
        assert e[f] == entry[f];
      }
    }
  }

  function NumValid(entries: seq<map<string, string>>): (n: nat)
    ensures n <= |entries|
  {
    if entries == [] then 0
    else NumValid(entries[..|entries| - 1]) + (if RecordValid(entries[|entries| - 1]) then 1 else 0)
  }

  /** The counting loops of `main`: a record counts when the number of
      required fields that are present and pass equals seven. */
  method CountValid(entries: seq<map<string, string>>) returns (validCount: nat)
    ensures validCount == NumValid(entries)
  {
    validCount := 0;
    for e := 0 to |entries|
      invariant validCount == NumValid(entries[..e])
    {
      var entry := entries[e];
      var fldCount := 0;
      for j := 0 to |REQUIRED|
        invariant fldCount == Passing(entry, j)
      {
        var (fld, validator) := REQUIRED[j];
        if fld in entry {
          if validator(entry[fld]) {
            fldCount := fldCount + 1;
          }
        }
      }
      PassingFull(entry, |REQUIRED|);
      assert entries[..e + 1][..e] == entries[..e];
      if fldCount == |REQUIRED| {
        validCount := validCount + 1;
      }
    }
    assert entries[..|entries|] == entries;
  }
}
