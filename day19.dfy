/** Day 19: matching messages against a grammar.  Each rule is a quoted
    letter, a sequence of rule numbers, or `|`-separated alternatives of
    those.  `check_validity` matches greedily from the front of the message:
    a sequence threads the remainder through its rules, an alternative takes
    the first choice that succeeds and never comes back to try another.  A
    message is valid when rule `0` succeeds and consumes all of it. */
module MonsterMessages {
  import opened Outcomes
  import opened Strings

  datatype Rule = Alt(choices: seq<Rule>) | Seq(rules: seq<string>) | Val(letter: string)

  // ---------------------------------------------------------------------
  // Parsing one rule.

  /** The rules made of one alternative: a quoted letter when the text is
      exactly three bytes wrapped in `"`, otherwise the white-space separated
      rule numbers.  Slicing the text by bytes panics when byte 1 or byte 2
      falls inside a character. */
  function ParseAlt(altText: string): Outcome<Rule> {
    var keys := Seq(SplitWhitespace(Trim(altText)));
    if ByteLen(altText) == 3 then
      assert altText != [];
      if Utf8Len(altText[0]) != 1 then Panic
      else if altText[0] != '"' then Done(keys)
      else if |altText| != 3 then Panic
      else if altText[2] == '"' then Done(Val([altText[1]]))
      else Done(keys)
    else Done(keys)
  }

  /** `map(parse_alt)`: every alternative parsed, in order. */
  function ParsedEach(alts: seq<string>): (r: seq<Outcome<Rule>>)
    ensures |r| == |alts|
  {
    seq(|alts|, i requires 0 <= i < |alts| => ParseAlt(alts[i]))
  }

  /** `collect`: the parsed rules, in order, or the first panic. */
  function Collect(outs: seq<Outcome<Rule>>): (r: Outcome<seq<Rule>>)
    ensures r.Done? ==> |r.value| == |outs|
  {
    if outs == [] then Done([])
    else
      match outs[0]
      case Done(first) =>
        (match Collect(outs[1..])
         case Done(rest) => Done([first] + rest)
         case _ => Panic)
      case _ => Panic
  }

  function ParseAlts(alts: seq<string>): Outcome<seq<Rule>> {
    Collect(ParsedEach(alts))
  }

  /** `parse_rule`: a single alternative stands for itself, several make an
      `Alt`.  (`split` always yields a piece, so the empty case cannot
      arise.) */
  function ParseRule(text: string): Outcome<Rule> {
    match ParseAlts(Split(text, '|'))
    case Done(altRules) =>
      if |altRules| == 0 then Panic
      else if |altRules| == 1 then Done(altRules[0])
      else Done(Alt(altRules))
    case _ => Panic
  }

  // ---------------------------------------------------------------------
  // Matching.

  predicate IsSuffix(tail: string, s: string) {
    |tail| <= |s| && s[|s| - |tail|..] == tail
  }

  /** What every step of the matcher promises: success leaves a suffix of
      the subject, failure gives the subject back unchanged. */
  predicate Consistent(subject: string, r: Outcome<(bool, string)>) {
    r.Done? ==> if r.value.0 then IsSuffix(r.value.1, subject) else r.value.1 == subject
  }

  function RuleSize(rule: Rule): nat {
    match rule
    case Alt(choices) => 1 + ChoicesSize(choices)
    case _ => 1
  }

  function ChoicesSize(choices: seq<Rule>): nat {
    if choices == [] then 0 else RuleSize(choices[0]) + ChoicesSize(choices[1..])
  }

  /** `check_validity` on `rule`.  Each lookup of a rule number spends one
      unit of `fuel`; `OutOfFuel` only says the bound was too small. */
  function Check(rules: map<string, Rule>, rule: Rule, subject: string, fuel: nat): (r: Outcome<(bool, string)>)
    ensures Consistent(subject, r)
    decreases fuel, RuleSize(rule), 0
  {
    match rule
    case Val(letter) =>
      if |subject| == 0 || Utf8Len(subject[0]) != 1 then Panic
      else if letter == [subject[0]] then Done((true, subject[1..]))
      else Done((false, subject))
    case Seq(keys) => CheckSeq(rules, keys, subject, subject, fuel)
    case Alt(choices) => CheckAlt(rules, choices, subject, fuel)
  }

  /** The loop over the rule numbers of a sequence, `rest` being what is
      left of `subject` so far. */
  function CheckSeq(rules: map<string, Rule>, keys: seq<string>, subject: string, rest: string, fuel: nat)
    : (r: Outcome<(bool, string)>)
    requires IsSuffix(rest, subject)
    ensures Consistent(subject, r)
    decreases fuel, 0, |keys|
  {
    if keys == [] then Done((true, rest))
    else if keys[0] !in rules then Panic
    else if fuel == 0 then OutOfFuel
    else
      match Check(rules, rules[keys[0]], rest, fuel - 1)
      case Done((true, remaining)) => CheckSeq(rules, keys[1..], subject, remaining, fuel)
      case Done((false, _)) => Done((false, subject))
      case Panic => Panic
      case OutOfFuel => OutOfFuel
  }

  /** The loop over the choices of an alternative: the first success wins. */
  function CheckAlt(rules: map<string, Rule>, choices: seq<Rule>, subject: string, fuel: nat)
    : (r: Outcome<(bool, string)>)
    ensures Consistent(subject, r)
    decreases fuel, ChoicesSize(choices), 1
  {
    if choices == [] then Done((false, subject))
    else
      match Check(rules, choices[0], subject, fuel)
      case Done((true, remaining)) => Done((true, remaining))
      case Done((false, _)) => CheckAlt(rules, choices[1..], subject, fuel)
      case Panic => Panic
      case OutOfFuel => OutOfFuel
  }

  /** `Puzzle::check_validity`: rule `0` must match and leave nothing. */
  function IsValid(rules: map<string, Rule>, subject: string, fuel: nat): Outcome<bool> {
    if "0" !in rules then Panic
    else
      match Check(rules, rules["0"], subject, fuel)
      case Done((ok, remaining)) => Done(ok && remaining == "")
      case Panic => Panic
      case OutOfFuel => OutOfFuel
  }

  // ---------------------------------------------------------------------
  // Properties of the matcher.

  /** More fuel changes no answer that was reached. */
  lemma {:induction false} CheckFuel(rules: map<string, Rule>, rule: Rule, subject: string, fuel: nat, more: nat)
    requires fuel <= more && !Check(rules, rule, subject, fuel).OutOfFuel?
    ensures Check(rules, rule, subject, more) == Check(rules, rule, subject, fuel)
    decreases fuel, RuleSize(rule), 0
  {
    match rule
    case Val(_) =>
    case Seq(keys) => CheckSeqFuel(rules, keys, subject, subject, fuel, more);
    case Alt(choices) => CheckAltFuel(rules, choices, subject, fuel, more);
  }

  lemma {:induction false} CheckSeqFuel(rules: map<string, Rule>, keys: seq<string>, subject: string, rest: string,
                                         fuel: nat, more: nat)
    requires IsSuffix(rest, subject)
    requires fuel <= more && !CheckSeq(rules, keys, subject, rest, fuel).OutOfFuel?
    ensures CheckSeq(rules, keys, subject, rest, more) == CheckSeq(rules, keys, subject, rest, fuel)
    decreases fuel, 0, |keys|
  {
    if keys != [] && keys[0] in rules && fuel > 0 {
      var first := Check(rules, rules[keys[0]], rest, fuel - 1);
      CheckFuel(rules, rules[keys[0]], rest, fuel - 1, more - 1);
      if first.Done? && first.value.0 {
        CheckSeqFuel(rules, keys[1..], subject, first.value.1, fuel, more);
      }
    }
  }

  lemma {:induction false} CheckAltFuel(rules: map<string, Rule>, choices: seq<Rule>, subject: string, fuel: nat, more: nat)
    requires fuel <= more && !CheckAlt(rules, choices, subject, fuel).OutOfFuel?
    ensures CheckAlt(rules, choices, subject, more) == CheckAlt(rules, choices, subject, fuel)
    decreases fuel, ChoicesSize(choices), 1
  {
    if choices != [] {
      var first := Check(rules, choices[0], subject, fuel);
      CheckFuel(rules, choices[0], subject, fuel, more);
      if first.Done? && !first.value.0 {
        CheckAltFuel(rules, choices[1..], subject, fuel, more);
      }
    }
  }

  /** A sequence threads the remainder: after the first part of its rule
      numbers has matched, the rest carries on from what the first part left. */
  lemma {:induction false} SeqThreads(rules: map<string, Rule>, front: seq<string>, back: seq<string>,
                                      subject: string, rest: string, mid: string, fuel: nat)
    requires IsSuffix(rest, subject)
    requires CheckSeq(rules, front, subject, rest, fuel) == Done((true, mid))
    ensures IsSuffix(mid, subject)
    ensures CheckSeq(rules, front + back, subject, rest, fuel) == CheckSeq(rules, back, subject, mid, fuel)
    decreases |front|
  {
    if front == [] {
      assert front + back == back;
    } else {
      var r := Check(rules, rules[front[0]], rest, fuel - 1);
      assert (front + back)[1..] == front[1..] + back;
      SeqThreads(rules, front[1..], back, subject, r.value.1, mid, fuel);
    }
  }

  /** A sequence fails as a whole when one of its rules fails, handing the
      subject back. */
  lemma {:induction false} SeqFails(rules: map<string, Rule>, keys: seq<string>, subject: string, rest: string,
                                    fuel: nat, k: nat)
    requires IsSuffix(rest, subject) && k < |keys| && keys[k] in rules && fuel > 0
    requires CheckSeq(rules, keys[..k], subject, rest, fuel).Done? && CheckSeq(rules, keys[..k], subject, rest, fuel).value.0
    requires Check(rules, rules[keys[k]], CheckSeq(rules, keys[..k], subject, rest, fuel).value.1, fuel - 1) .Done?
    requires !Check(rules, rules[keys[k]], CheckSeq(rules, keys[..k], subject, rest, fuel).value.1, fuel - 1).value.0
    ensures CheckSeq(rules, keys, subject, rest, fuel) == Done((false, subject))
  {
    var mid := CheckSeq(rules, keys[..k], subject, rest, fuel).value.1;
    SeqThreads(rules, keys[..k], keys[k..], subject, rest, mid, fuel);
    assert keys[..k] + keys[k..] == keys;
    assert keys[k..][0] == keys[k];
  }

  /** An alternative answers with its first choice that succeeds; the
      choices after it are never tried. */
  lemma {:induction false} AltFirstSuccess(rules: map<string, Rule>, choices: seq<Rule>, subject: string, fuel: nat,
                                           k: nat, remaining: string)
    requires k < |choices|
    requires forall i :: 0 <= i < k ==> Check(rules, choices[i], subject, fuel) == Done((false, subject))
    requires Check(rules, choices[k], subject, fuel) == Done((true, remaining))
    ensures CheckAlt(rules, choices, subject, fuel) == Done((true, remaining))
    decreases k
  {
    if k > 0 {
      AltFirstSuccess(rules, choices[1..], subject, fuel, k - 1, remaining);
    }
  }

  /** An alternative fails only when every choice fails. */
  lemma {:induction false} AltAllFail(rules: map<string, Rule>, choices: seq<Rule>, subject: string, fuel: nat)
    requires forall i :: 0 <= i < |choices| ==> Check(rules, choices[i], subject, fuel) == Done((false, subject))
    ensures CheckAlt(rules, choices, subject, fuel) == Done((false, subject))
    decreases |choices|
  {
    if choices != [] {
      AltAllFail(rules, choices[1..], subject, fuel);
    }
  }

  /** One step of a sequence: its first rule matched, leaving `mid`. */
  lemma SeqTakes(rules: map<string, Rule>, keys: seq<string>, subject: string, rest: string, fuel: nat, mid: string)
    requires IsSuffix(rest, subject) && keys != [] && keys[0] in rules && fuel > 0
    requires Check(rules, rules[keys[0]], rest, fuel - 1) == Done((true, mid))
    ensures IsSuffix(mid, subject)
    ensures CheckSeq(rules, keys, subject, rest, fuel) == CheckSeq(rules, keys[1..], subject, mid, fuel)
  {
  }

  /** A sequence stops with a failure at its first rule that fails. */
  lemma SeqStops(rules: map<string, Rule>, keys: seq<string>, subject: string, rest: string, fuel: nat)
    requires IsSuffix(rest, subject) && keys != [] && keys[0] in rules && fuel > 0
    requires Check(rules, rules[keys[0]], rest, fuel - 1).Done? && !Check(rules, rules[keys[0]], rest, fuel - 1).value.0
    ensures CheckSeq(rules, keys, subject, rest, fuel) == Done((false, subject))
  {
  }

  /** A rule number without a rule panics (`expect("Known rule.")`). */
  lemma UnknownKeyPanics(rules: map<string, Rule>, keys: seq<string>, subject: string, fuel: nat)
    requires keys != [] && keys[0] !in rules
    ensures Check(rules, Seq(keys), subject, fuel) == Panic
  {
  }

  // ---------------------------------------------------------------------
  // The example grammar.

  /** The six rules of the puzzle's example: rule 0 is `4 1 5` and rule 5
      is the letter `b`. */
  function ExampleRules(): map<string, Rule> {
    map[
      "0" := Seq(["4", "1", "5"]),
      "1" := Alt([Seq(["2", "3"]), Seq(["3", "2"])]),
      "2" := Alt([Seq(["4", "4"]), Seq(["5", "5"])]),
      "3" := Alt([Seq(["4", "5"]), Seq(["5", "4"])]),
      "4" := Val("a"),
      "5" := Val("b")
    ]
  }

  /** The messages are made of the letters `a` and `b`. */
  predicate OverAB(s: string) {
    forall i :: 0 <= i < |s| ==> s[i] == 'a' || s[i] == 'b'
  }

  /** Rules 4 and 5 take one `a` or one `b` off a non-empty message. */
  lemma ExampleLetter(rules: map<string, Rule>, key: string, s: string, fuel: nat)
    requires rules == ExampleRules() && (key == "4" || key == "5")
    requires s != [] && (s[0] == 'a' || s[0] == 'b')
    ensures Check(rules, rules[key], s, fuel)
         == if s[0] == (if key == "4" then 'a' else 'b') then Done((true, s[1..])) else Done((false, s))
  {
  }

  /** A sequence of two letter rules. */
  lemma ExampleTwoLetters(rules: map<string, Rule>, k1: string, k2: string, s: string, fuel: nat)
    requires rules == ExampleRules() && (k1 == "4" || k1 == "5") && (k2 == "4" || k2 == "5")
    requires |s| >= 2 && OverAB(s[..2]) && fuel >= 1
    ensures Check(rules, Seq([k1, k2]), s, fuel)
         == if s[0] == (if k1 == "4" then 'a' else 'b') && s[1] == (if k2 == "4" then 'a' else 'b')
            then Done((true, s[2..])) else Done((false, s))
  {
    assert s[..2][0] == s[0] && s[..2][1] == s[1];
    ExampleLetter(rules, k1, s, fuel - 1);
    if s[0] == (if k1 == "4" then 'a' else 'b') {
      SeqTakes(rules, [k1, k2], s, s, fuel, s[1..]);
      assert [k1, k2][1..] == [k2];
      ExampleLetter(rules, k2, s[1..], fuel - 1);
      if s[1] == (if k2 == "4" then 'a' else 'b') {
        SeqTakes(rules, [k2], s, s[1..], fuel, s[2..]);
        assert [k2][1..] == [];
      } else {
        SeqStops(rules, [k2], s, s[1..], fuel);
      }
    } else {
      SeqStops(rules, [k1, k2], s, s, fuel);
    }
  }

  /** Rule 2 takes two equal letters, rule 3 two different ones. */
  lemma ExamplePair(rules: map<string, Rule>, key: string, s: string, fuel: nat)
    requires rules == ExampleRules() && (key == "2" || key == "3")
    requires |s| >= 2 && OverAB(s[..2]) && fuel >= 1
    ensures Check(rules, rules[key], s, fuel)
         == if (s[0] == s[1]) == (key == "2") then Done((true, s[2..])) else Done((false, s))
  {
    assert s[..2][0] == s[0] && s[..2][1] == s[1];
    var c := rules[key].choices;
    assert |c| == 2 && rules[key] == Alt(c);
    assert c[0] == Seq([c[0].rules[0], c[0].rules[1]]) && c[1] == Seq([c[1].rules[0], c[1].rules[1]]);
    ExampleTwoLetters(rules, c[0].rules[0], c[0].rules[1], s, fuel);
    ExampleTwoLetters(rules, c[1].rules[0], c[1].rules[1], s, fuel);
    if Check(rules, c[0], s, fuel).value.0 {
      AltFirstSuccess(rules, c, s, fuel, 0, s[2..]);
    } else if Check(rules, c[1], s, fuel).value.0 {
      AltFirstSuccess(rules, c, s, fuel, 1, s[2..]);
    } else {
      AltAllFail(rules, c, s, fuel);
    }
  }

  /** The letters a pair rule accepts: equal for rule 2, different for rule 3. */
  predicate PairFits(key: string, x: char, y: char) {
    (x == y) == (key == "2")
  }

  /** A sequence of two pair rules. */
  lemma ExampleTwoPairs(rules: map<string, Rule>, k1: string, k2: string, s: string, fuel: nat)
    requires rules == ExampleRules() && (k1 == "2" || k1 == "3") && (k2 == "2" || k2 == "3")
    requires |s| >= 4 && OverAB(s[..4]) && fuel >= 2
    ensures Check(rules, Seq([k1, k2]), s, fuel)
         == if PairFits(k1, s[0], s[1]) && PairFits(k2, s[2], s[3]) then Done((true, s[4..])) else Done((false, s))
  {
    assert s[..2] == s[..4][..2];
    assert s[2..][..2] == s[..4][2..];
    ExamplePair(rules, k1, s, fuel - 1);
    if PairFits(k1, s[0], s[1]) {
      SeqTakes(rules, [k1, k2], s, s, fuel, s[2..]);
      assert [k1, k2][1..] == [k2];
      assert s[2..][0] == s[2] && s[2..][1] == s[3];
      ExamplePair(rules, k2, s[2..], fuel - 1);
      if PairFits(k2, s[2], s[3]) {
        SeqTakes(rules, [k2], s, s[2..], fuel, s[4..]);
        assert [k2][1..] == [];
        assert s[2..][2..] == s[4..];
      } else {
        SeqStops(rules, [k2], s, s[2..], fuel);
      }
    } else {
      SeqStops(rules, [k1, k2], s, s, fuel);
    }
  }

  /** Rule 1 takes two pairs, one of equal letters and one of different
      letters, in either order. */
  lemma ExampleQuad(rules: map<string, Rule>, s: string, fuel: nat)
    requires rules == ExampleRules()
    requires |s| >= 4 && OverAB(s[..4]) && fuel >= 2
    ensures Check(rules, rules["1"], s, fuel)
         == if (s[0] == s[1]) != (s[2] == s[3]) then Done((true, s[4..])) else Done((false, s))
  {
    var c := rules["1"].choices;
    assert |c| == 2 && rules["1"] == Alt(c);
    assert c[0] == Seq(["2", "3"]) && c[1] == Seq(["3", "2"]);
    ExampleTwoPairs(rules, "2", "3", s, fuel);
    ExampleTwoPairs(rules, "3", "2", s, fuel);
    if Check(rules, c[0], s, fuel).value.0 {
      AltFirstSuccess(rules, c, s, fuel, 0, s[4..]);
    } else if Check(rules, c[1], s, fuel).value.0 {
      AltFirstSuccess(rules, c, s, fuel, 1, s[4..]);
    } else {
      AltAllFail(rules, c, s, fuel);
    }
  }

  /** Rule 0 takes an `a`, a match of rule 1, and a `b`. */
  lemma ExampleRuleZero(rules: map<string, Rule>, s: string, fuel: nat)
    requires rules == ExampleRules()
    requires |s| >= 6 && OverAB(s[..6]) && fuel >= 3
    ensures Check(rules, rules["0"], s, fuel)
         == if s[0] == 'a' && (s[1] == s[2]) != (s[3] == s[4]) && s[5] == 'b'
            then Done((true, s[6..])) else Done((false, s))
  {
    var keys := ["4", "1", "5"];
    assert rules["0"] == Seq(keys);
    assert s[..6][0] == s[0] && s[..6][5] == s[5];
    ExampleLetter(rules, "4", s, fuel - 1);
    if s[0] == 'a' {
      SeqTakes(rules, keys, s, s, fuel, s[1..]);
      assert keys[1..] == ["1", "5"] && keys[1..][1..] == ["5"] && ["5"][1..] == [];
      assert s[1..][..4] == s[..6][1..5];
      assert s[1..][0] == s[1] && s[1..][1] == s[2] && s[1..][2] == s[3] && s[1..][3] == s[4];
      ExampleQuad(rules, s[1..], fuel - 1);
      if (s[1] == s[2]) != (s[3] == s[4]) {
        assert s[1..][4..] == s[5..];
        SeqTakes(rules, keys[1..], s, s[1..], fuel, s[5..]);
        ExampleLetter(rules, "5", s[5..], fuel - 1);
        if s[5] == 'b' {
          SeqTakes(rules, ["5"], s, s[5..], fuel, s[6..]);
          assert s[5..][1..] == s[6..];
        } else {
          SeqStops(rules, ["5"], s, s[5..], fuel);
        }
      } else {
        SeqStops(rules, keys[1..], s, s[1..], fuel);
      }
    } else {
      SeqStops(rules, keys, s, s, fuel);
    }
  }

  /** The example grammar accepts exactly the six-letter messages `a`, then
      two pairs one of which repeats a letter and one of which does not,
      then `b`. */
  lemma ExampleLanguage(rules: map<string, Rule>, s: string)
    requires rules == ExampleRules() && |s| >= 6 && OverAB(s)
    ensures IsValid(rules, s, 3)
         == Done(|s| == 6 && s[0] == 'a' && (s[1] == s[2]) != (s[3] == s[4]) && s[5] == 'b')
  {
    assert OverAB(s[..6]);
    ExampleRuleZero(rules, s, 3);
  }

  /** The messages of the example test: `ababbb` and `abbbab` are valid,
      `bababa` and `aaabbb` are not. */
  lemma ExampleValid(rules: map<string, Rule>, s: string)
    requires rules == ExampleRules()
    requires s == "ababbb" || s == "abbbab"
    ensures IsValid(rules, s, 3) == Done(true)
  {
    assert |s| == 6 && OverAB(s[..6]);
    ExampleRuleZero(rules, s, 3);
  }

  lemma ExampleInvalid(rules: map<string, Rule>, s: string)
    requires rules == ExampleRules()
    requires s == "bababa" || s == "aaabbb"
    ensures IsValid(rules, s, 3) == Done(false)
  {
    assert |s| == 6 && OverAB(s[..6]);
    ExampleRuleZero(rules, s, 3);
  }

  /** `aaaabbb` matches rule 0 with `b` left over, so it is not valid. */
  lemma ExampleLeftover(rules: map<string, Rule>, s: string)
    requires rules == ExampleRules() && s == "aaaabbb"
    ensures Check(rules, rules["0"], s, 3) == Done((true, "b"))
    ensures IsValid(rules, s, 3) == Done(false)
  {
    assert OverAB(s[..6]);
    ExampleRuleZero(rules, s, 3);
    assert s[6..] == "b";
  }

  // ---------------------------------------------------------------------
  // Printing a rule and parsing it back.

  /** A rule number: a non-empty run of decimal digits. */
  predicate IsKey(k: string) {
    k != [] && forall i :: 0 <= i < |k| ==> IsAsciiDigit(k[i])
  }

  predicate IsKeySeq(rule: Rule) {
    rule.Seq? && |rule.rules| >= 1 && forall i :: 0 <= i < |rule.rules| ==> IsKey(rule.rules[i])
  }

  /** The rules the puzzle's input writes: one ASCII letter other than `|`
      in quotes, a sequence of rule numbers, or at least two such sequences
      as alternatives. */
  predicate WellFormed(rule: Rule) {
    match rule
    case Val(letter) => |letter| == 1 && letter[0] as int < 0x80 && letter[0] != '|'
    case Seq(_) => IsKeySeq(rule)
    case Alt(choices) => |choices| >= 2 && forall i :: 0 <= i < |choices| ==> IsKeySeq(choices[i])
  }

  /** The alternatives of an `Alt` as the input writes them, `|` padded
      with a space on each side; `first` says whether the first of
      `choices` begins the rule text. */
  function PaddedChoices(choices: seq<Rule>, first: bool): (texts: seq<string>)
    requires forall i :: 0 <= i < |choices| ==> IsKeySeq(choices[i])
    ensures |texts| == |choices|
  {
    if choices == [] then []
    else
      assert IsKeySeq(choices[0]);
      [(if first then "" else " ") + Join(choices[0].rules, ' ') + (if |choices| > 1 then " " else "")]
      + PaddedChoices(choices[1..], false)
  }

  /** The text of a rule as it follows `N: ` in the input. */
  function ShowRule(rule: Rule): string
    requires WellFormed(rule)
  {
    match rule
    case Val(letter) => "\"" + letter + "\""
    case Seq(keys) => Join(keys, ' ')
    case Alt(choices) => Join(PaddedChoices(choices, true), '|')
  }

  /** Rule-number text: decimal digits and spaces only. */
  predicate IsKeyText(text: string) {
    forall i :: 0 <= i < |text| ==> IsAsciiDigit(text[i]) || text[i] == ' '
  }

  lemma DigitNotSpace(c: char)
    requires IsAsciiDigit(c)
    ensures !IsWhiteSpace(c) && c != '|' && c != '"'
  {
  }

  /** The text of a sequence of rule numbers is made of digits and spaces,
      and begins and ends with a digit. */
  lemma {:induction false} KeysTextShape(keys: seq<string>)
    requires |keys| >= 1 && forall i :: 0 <= i < |keys| ==> IsKey(keys[i])
    ensures var text := Join(keys, ' ');
      text != [] && IsAsciiDigit(text[0]) && IsAsciiDigit(text[|text| - 1]) && IsKeyText(text)
    decreases |keys|
  {
    if |keys| > 1 {
      KeysTextShape(keys[1..]);
      var k := keys[0];
      var tail := Join(keys[1..], ' ');
      var text := k + [' '] + tail;
      assert Join(keys, ' ') == text;
      assert IsKeyText(text) by {
        forall i | 0 <= i < |text| ensures IsAsciiDigit(text[i]) || text[i] == ' ' {
          if i > |k| {
            assert text[i] == tail[i - |k| - 1];
          }
        }
      }
      assert text[|text| - 1] == tail[|tail| - 1];
    }
  }

  /** `split_whitespace` gives the rule numbers back from their text. */
  lemma {:induction false} KeysTextWords(keys: seq<string>)
    requires |keys| >= 1 && forall i :: 0 <= i < |keys| ==> IsKey(keys[i])
    ensures SplitWhitespace(Join(keys, ' ')) == keys
    decreases |keys|
  {
    var k := keys[0];
    assert k[0] == k[0];
    DigitNotSpace(k[0]);
    forall i | 0 <= i < |k| ensures !IsWhiteSpace(k[i]) {
      DigitNotSpace(k[i]);
    }
    if |keys| == 1 {
      RunAll(k);
      assert k[|k|..] == [];
    } else {
      KeysTextWords(keys[1..]);
      KeysTextShape(keys[1..]);
      var tail := Join(keys[1..], ' ');
      DigitNotSpace(tail[0]);
      var text := k + ([' '] + tail);
      assert Join(keys, ' ') == text;
      RunStops(k, [' '] + tail);
      assert text[|k|..] == [' '] + tail;
      assert ([' '] + tail)[1..] == tail;
      assert keys == [k] + keys[1..];
    }
  }

  lemma {:induction false} RunAll(w: string)
    requires forall i :: 0 <= i < |w| ==> !IsWhiteSpace(w[i])
    ensures Run(w) == w
    decreases |w|
  {
    if w != [] {
      RunAll(w[1..]);
    }
  }

  lemma {:induction false} RunStops(w: string, t: string)
    requires forall i :: 0 <= i < |w| ==> !IsWhiteSpace(w[i])
    requires t != [] && IsWhiteSpace(t[0])
    ensures Run(w + t) == w
    decreases |w|
  {
    if w != [] {
      RunStops(w[1..], t);
      assert (w + t)[1..] == w[1..] + t;
    }
  }

  /** Text that does not begin with `"` is read as rule numbers. */
  lemma ParseAltUnquoted(text: string)
    requires text != [] && text[0] as int < 0x80 && text[0] != '"'
    ensures ParseAlt(text) == Done(Seq(SplitWhitespace(Trim(text))))
  {
  }

  /** `trim` takes off a space of padding on either side. */
  lemma TrimPadded(body: string, before: string, after: string)
    requires body != [] && !IsWhiteSpace(body[0]) && !IsWhiteSpace(body[|body| - 1])
    requires before == "" || before == " "
    requires after == "" || after == " "
    ensures Trim(before + body + after) == body
  {
    TrimStartPadded(body + after, before);
    assert before + body + after == before + (body + after);
    TrimEndPadded(body, after);
  }

  lemma TrimStartPadded(text: string, before: string)
    requires text != [] && !IsWhiteSpace(text[0])
    requires before == "" || before == " "
    ensures TrimStart(before + text) == text
  {
    if before == " " {
      assert (before + text)[1..] == text;
    } else {
      assert before + text == text;
    }
  }

  lemma TrimEndPadded(body: string, after: string)
    requires body != [] && !IsWhiteSpace(body[|body| - 1])
    requires after == "" || after == " "
    ensures TrimEnd(body + after) == body
  {
    if after == " " {
      assert (body + after)[..|body|] == body;
    } else {
      assert body + after == body;
    }
  }

  lemma PaddedKeyText(body: string, before: string, after: string)
    requires IsKeyText(body)
    requires before == "" || before == " "
    requires after == "" || after == " "
    ensures IsKeyText(before + body + after)
  {
    var text := before + body + after;
    forall i | 0 <= i < |text| ensures IsAsciiDigit(text[i]) || text[i] == ' ' {
      if |before| <= i < |before| + |body| {
        assert text[i] == body[i - |before|];
      }
    }
  }

  lemma KeyTextNoBar(text: string)
    requires IsKeyText(text)
    ensures '|' !in text && (text != [] ==> text[0] as int < 0x80 && text[0] != '"')
  {
  }

  /** One alternative of rule numbers, with a space of padding or none on
      either side, parses to its sequence. */
  lemma PaddedKeysParse(keys: seq<string>, before: string, after: string)
    requires |keys| >= 1 && forall i :: 0 <= i < |keys| ==> IsKey(keys[i])
    requires before == "" || before == " "
    requires after == "" || after == " "
    ensures var text := before + Join(keys, ' ') + after;
      '|' !in text && ParseAlt(text) == Done(Seq(keys))
  {
    var body := Join(keys, ' ');
    KeysTextShape(keys);
    KeysTextWords(keys);
    DigitNotSpace(body[0]);
    DigitNotSpace(body[|body| - 1]);
    TrimPadded(body, before, after);
    var text := before + body + after;
    PaddedKeyText(body, before, after);
    KeyTextNoBar(text);
    ParseAltUnquoted(text);
  }

  /** The padded alternative at index `i` parses to its choice. */
  lemma {:induction false} PaddedChoiceParses(choices: seq<Rule>, first: bool, i: nat)
    requires forall j :: 0 <= j < |choices| ==> IsKeySeq(choices[j])
    requires i < |choices|
    ensures var texts := PaddedChoices(choices, first);
      '|' !in texts[i] && ParseAlt(texts[i]) == Done(choices[i])
    decreases i
  {
    var texts := PaddedChoices(choices, first);
    var tail := PaddedChoices(choices[1..], false);
    var before := if first then "" else " ";
    var after := if |choices| > 1 then " " else "";
    assert texts == [before + Join(choices[0].rules, ' ') + after] + tail;
    if i == 0 {
      PaddedKeysParse(choices[0].rules, before, after);
    } else {
      PaddedChoiceParses(choices[1..], false, i - 1);
      assert texts[i] == tail[i - 1] && choices[i] == choices[1..][i - 1];
    }
  }

  /** Each padded alternative parses to its choice. */
  lemma PaddedChoicesParse(choices: seq<Rule>, first: bool)
    requires forall i :: 0 <= i < |choices| ==> IsKeySeq(choices[i])
    ensures var texts := PaddedChoices(choices, first);
      forall i :: 0 <= i < |texts| ==> '|' !in texts[i] && ParseAlt(texts[i]) == Done(choices[i])
  {
    forall i | 0 <= i < |choices|
      ensures '|' !in PaddedChoices(choices, first)[i]
      ensures ParseAlt(PaddedChoices(choices, first)[i]) == Done(choices[i])
    {
      PaddedChoiceParses(choices, first, i);
    }
  }

  /** Collecting succeeds with `parsed` when each outcome is the rule at
      its index. */
  lemma {:induction false} CollectEach(outs: seq<Outcome<Rule>>, parsed: seq<Rule>)
    requires |outs| == |parsed|
    requires forall i :: 0 <= i < |outs| ==> outs[i] == Done(parsed[i])
    ensures Collect(outs) == Done(parsed)
    decreases |outs|
  {
    if outs != [] {
      CollectEach(outs[1..], parsed[1..]);
      assert parsed == [parsed[0]] + parsed[1..];
    }
  }

  /** Conversely, the rule at index `i` of a successful collection is the
      outcome at index `i`. */
  lemma {:induction false} CollectAt(outs: seq<Outcome<Rule>>, i: nat)
    requires Collect(outs).Done? && i < |outs|
    ensures outs[i] == Done(Collect(outs).value[i])
    decreases i
  {
    if i > 0 {
      CollectAt(outs[1..], i - 1);
    }
  }

  /** Collecting never panics when no outcome does. */
  lemma {:induction false} CollectDone(outs: seq<Outcome<Rule>>)
    requires forall i :: 0 <= i < |outs| ==> outs[i].Done?
    ensures Collect(outs).Done?
    decreases |outs|
  {
    if outs != [] {
      CollectDone(outs[1..]);
    }
  }

  lemma ParseAltsEach(alts: seq<string>, parsed: seq<Rule>)
    requires |alts| == |parsed|
    requires forall i :: 0 <= i < |alts| ==> ParseAlt(alts[i]) == Done(parsed[i])
    ensures ParseAlts(alts) == Done(parsed)
  {
    CollectEach(ParsedEach(alts), parsed);
  }

  /** `parse_rule` reads back every rule in the form the input writes it. */
  lemma ParseShow(rule: Rule)
    requires WellFormed(rule)
    ensures ParseRule(ShowRule(rule)) == Done(rule)
  {
    match rule
    case Val(_) => ParseShowVal(rule);
    case Seq(_) => ParseShowSeq(rule);
    case Alt(_) => ParseShowAlt(rule);
  }

  /** A text without `|` is one alternative, and parses as that
      alternative does. */
  lemma ParseSingle(text: string, rule: Rule)
    requires '|' !in text && ParseAlt(text) == Done(rule)
    ensures ParseRule(text) == Done(rule)
  {
    SplitNoSep(text, '|');
    ParseAltsEach([text], [rule]);
  }

  lemma ParseShowVal(rule: Rule)
    requires rule.Val? && WellFormed(rule)
    ensures ParseRule(ShowRule(rule)) == Done(rule)
  {
    var c := rule.letter[0];
    var text := ShowRule(rule);
    assert text == ['"', c, '"'];
    AsciiByteOffset(text, 3);
    assert ParseAlt(text) == Done(Val([c]));
    assert [c] == rule.letter;
    ParseSingle(text, rule);
  }

  lemma ParseShowSeq(rule: Rule)
    requires rule.Seq? && WellFormed(rule)
    ensures ParseRule(ShowRule(rule)) == Done(rule)
  {
    var text := Join(rule.rules, ' ');
    KeysParse(rule.rules);
    ParseSingle(text, rule);
  }

  /** Rule numbers without padding parse to their sequence. */
  lemma KeysParse(keys: seq<string>)
    requires |keys| >= 1 && forall i :: 0 <= i < |keys| ==> IsKey(keys[i])
    ensures '|' !in Join(keys, ' ') && ParseAlt(Join(keys, ' ')) == Done(Seq(keys))
  {
    var body := Join(keys, ' ');
    KeysTextShape(keys);
    KeysTextWords(keys);
    DigitNotSpace(body[0]);
    DigitNotSpace(body[|body| - 1]);
    TrimPadded(body, "", "");
    assert "" + body + "" == body;
    KeyTextNoBar(body);
    ParseAltUnquoted(body);
  }

  lemma ParseShowAlt(rule: Rule)
    requires rule.Alt? && WellFormed(rule)
    ensures ParseRule(ShowRule(rule)) == Done(rule)
  {
    var texts := PaddedChoices(rule.choices, true);
    PaddedChoicesParse(rule.choices, true);
    SplitJoin(texts, '|');
    ParseAltsEach(texts, rule.choices);
  }

  /** The rule texts of the parser's tests. */
  lemma ParseLetterExample(text: string)
    requires text == "\"a\""
    ensures ParseRule(text) == Done(Val("a"))
  {
    var rule := Val("a");
    assert ShowRule(rule) == text;
    ParseShowVal(rule);
  }

  lemma ParseSeqExample(text: string)
    requires text == "1 2"
    ensures ParseRule(text) == Done(Seq(["1", "2"]))
  {
    var keys := ["1", "2"];
    assert IsKey(keys[0]) && IsKey(keys[1]);
    assert Join(keys, ' ') == "1" + [' '] + "2" == text;
    ParseShowSeq(Seq(keys));
  }

  lemma ParseAltExample(text: string)
    requires text == "1 2 | 2 1"
    ensures ParseRule(text) == Done(Alt([Seq(["1", "2"]), Seq(["2", "1"])]))
  {
    var one := ["1", "2"];
    var two := ["2", "1"];
    assert IsKey(one[0]) && IsKey(one[1]);
    assert Join(one, ' ') == "1" + [' '] + "2";
    assert Join(two, ' ') == "2" + [' '] + "1";
    var choices := [Seq(one), Seq(two)];
    assert choices[1..] == [Seq(two)];
    assert PaddedChoices([Seq(two)], false) == [" " + Join(two, ' ') + ""];
    assert PaddedChoices(choices, true) == ["" + Join(one, ' ') + " ", " " + Join(two, ' ') + ""];
    assert Join(PaddedChoices(choices, true), '|') == text;
    ParseShowAlt(Alt(choices));
  }

  /** A rule text in ASCII never panics: byte positions are character
      positions, so the byte slices fall on character boundaries. */
  lemma AsciiRuleParses(text: string)
    requires IsAscii(text)
    ensures ParseRule(text).Done?
  {
    var alts := Split(text, '|');
    SplitAscii(text, '|');
    forall i | 0 <= i < |alts| ensures ParseAlt(alts[i]).Done? {
      AsciiByteOffset(alts[i], |alts[i]|);
    }
    ParseAltsDone(alts);
  }

  lemma {:induction false} SplitAscii(s: string, sep: char)
    requires IsAscii(s)
    ensures forall i :: 0 <= i < |Split(s, sep)| ==> IsAscii(Split(s, sep)[i])
    decreases |s|
  {
    if s != [] {
      SplitAscii(s[1..], sep);
    }
  }

  lemma ParseAltsDone(alts: seq<string>)
    requires forall i :: 0 <= i < |alts| ==> ParseAlt(alts[i]).Done?
    ensures ParseAlts(alts).Done?
  {
    CollectDone(ParsedEach(alts));
  }

  // ---------------------------------------------------------------------
  // What a rule derives, with backtracking.

  /** `text`, whole, is derived from `rule`: a letter derives itself, a
      sequence derives the concatenation of a derivation of each of its
      rules, an alternative what any of its choices derives.  Lookups of
      rule numbers are bounded by `fuel`, as in `Check`. */
  predicate Derives(rules: map<string, Rule>, rule: Rule, text: string, fuel: nat)
    decreases fuel, RuleSize(rule), 0
  {
    match rule
    case Val(letter) => text == letter
    case Seq(keys) => DerivesSeq(rules, keys, text, fuel)
    case Alt(choices) => DerivesAlt(rules, choices, text, fuel)
  }

  predicate DerivesSeq(rules: map<string, Rule>, keys: seq<string>, text: string, fuel: nat)
    decreases fuel, 0, |keys|
  {
    if keys == [] then text == []
    else
      && keys[0] in rules && fuel > 0
      && exists k :: 0 <= k <= |text| && Derives(rules, rules[keys[0]], text[..k], fuel - 1)
                                     && DerivesSeq(rules, keys[1..], text[k..], fuel)
  }

  predicate DerivesAlt(rules: map<string, Rule>, choices: seq<Rule>, text: string, fuel: nat)
    decreases fuel, ChoicesSize(choices), 1
  {
    choices != [] && (Derives(rules, choices[0], text, fuel) || DerivesAlt(rules, choices[1..], text, fuel))
  }

  /** What the greedy matcher takes off the front of the subject is derived
      from the rule. */
  lemma {:induction false} CheckSound(rules: map<string, Rule>, rule: Rule, subject: string, fuel: nat)
    requires Check(rules, rule, subject, fuel).Done? && Check(rules, rule, subject, fuel).value.0
    ensures Derives(rules, rule, subject[..|subject| - |Check(rules, rule, subject, fuel).value.1|], fuel)
    decreases fuel, RuleSize(rule), 0
  {
    match rule
    case Val(letter) =>
      assert subject[..1] == [subject[0]];
    case Seq(keys) =>
      CheckSeqSound(rules, keys, subject, subject, fuel);
    case Alt(choices) =>
      CheckAltSound(rules, choices, subject, fuel);
  }

  lemma {:induction false} CheckSeqSound(rules: map<string, Rule>, keys: seq<string>, subject: string, rest: string,
                                          fuel: nat)
    requires IsSuffix(rest, subject)
    requires CheckSeq(rules, keys, subject, rest, fuel).Done? && CheckSeq(rules, keys, subject, rest, fuel).value.0
    ensures var left := CheckSeq(rules, keys, subject, rest, fuel).value.1;
      IsSuffix(left, rest) && DerivesSeq(rules, keys, rest[..|rest| - |left|], fuel)
    decreases fuel, 0, |keys|
  {
    var left := CheckSeq(rules, keys, subject, rest, fuel).value.1;
    if keys == [] {
      assert rest[..|rest| - |left|] == [];
    } else {
      var mid := Check(rules, rules[keys[0]], rest, fuel - 1).value.1;
      CheckSound(rules, rules[keys[0]], rest, fuel - 1);
      assert IsSuffix(mid, subject);
      CheckSeqSound(rules, keys[1..], subject, mid, fuel);
      var k := |rest| - |mid|;
      var text := rest[..|rest| - |left|];
      assert mid == rest[k..];
      assert |left| <= |mid|;
      assert text[..k] == rest[..k];
      assert text[k..] == mid[..|mid| - |left|];
      assert rest[|rest| - |left|..] == mid[|mid| - |left|..];
    }
  }

  lemma {:induction false} CheckAltSound(rules: map<string, Rule>, choices: seq<Rule>, subject: string, fuel: nat)
    requires CheckAlt(rules, choices, subject, fuel).Done? && CheckAlt(rules, choices, subject, fuel).value.0
    ensures DerivesAlt(rules, choices, subject[..|subject| - |CheckAlt(rules, choices, subject, fuel).value.1|], fuel)
    decreases fuel, ChoicesSize(choices), 1
  {
    assert choices != [] && RuleSize(choices[0]) >= 1;
    var first := Check(rules, choices[0], subject, fuel);
    if first.value.0 {
      CheckSound(rules, choices[0], subject, fuel);
    } else {
      CheckAltSound(rules, choices[1..], subject, fuel);
    }
  }

  /** A valid message is derived from rule 0. */
  lemma ValidIsDerived(rules: map<string, Rule>, subject: string, fuel: nat)
    requires IsValid(rules, subject, fuel) == Done(true)
    ensures Derives(rules, rules["0"], subject, fuel)
  {
    CheckSound(rules, rules["0"], subject, fuel);
    assert subject[..|subject|] == subject;
  }

  /** The converse fails: once a choice has matched, the matcher never
      comes back to try the next one.  Rule 1 below derives `a` and `aa`;
      on `aab` it takes `a`, rule 2 then meets `a`, and the message is
      refused although `aa` followed by `b` derives it. */
  function GreedyRules(): map<string, Rule> {
    map[
      "0" := Seq(["1", "2"]),
      "1" := Alt([Seq(["3"]), Seq(["3", "3"])]),
      "2" := Val("b"),
      "3" := Val("a")
    ]
  }

  /** A derivation of a sequence: its first rule derives the first `k`
      characters, the rest of the rules the others. */
  lemma DerivesSeqStep(rules: map<string, Rule>, keys: seq<string>, text: string, fuel: nat, k: nat)
    requires keys != [] && keys[0] in rules && fuel > 0 && k <= |text|
    requires Derives(rules, rules[keys[0]], text[..k], fuel - 1)
    requires DerivesSeq(rules, keys[1..], text[k..], fuel)
    ensures DerivesSeq(rules, keys, text, fuel)
  {
  }

  /** One letter rule: `key` derives the one-character text `t`. */
  lemma DerivesLetter(rules: map<string, Rule>, key: string, t: string, fuel: nat)
    requires key in rules && rules[key] == Val(t) && |t| == 1 && fuel > 0
    ensures DerivesSeq(rules, [key], t, fuel)
  {
    assert t[..1] == t && t[1..] == [];
    assert [key][1..] == [];
    DerivesSeqStep(rules, [key], t, fuel, 1);
  }

  /** Rule 1 of `GreedyRules` derives `aa` through its second choice. */
  lemma GreedyDerivesPair(rules: map<string, Rule>, t: string)
    requires rules == GreedyRules() && |t| == 2 && t[0] == 'a' && t[1] == 'a'
    ensures Derives(rules, rules["1"], t, 2)
  {
    var aa := Seq(["3", "3"]);
    assert t[..1] == [t[0]] && t[1..] == [t[1]];
    DerivesLetter(rules, "3", t[1..], 2);
    assert ["3", "3"][1..] == ["3"];
    DerivesSeqStep(rules, ["3", "3"], t, 2, 1);
    assert DerivesAlt(rules, [aa], t, 2);
    assert [Seq(["3"]), aa][1..] == [aa];
  }

  lemma GreedyDerives(rules: map<string, Rule>, s: string)
    requires rules == GreedyRules() && |s| == 3 && s[0] == 'a' && s[1] == 'a' && s[2] == 'b'
    ensures Derives(rules, rules["0"], s, 3)
  {
    assert rules["0"] == Seq(["1", "2"]);
    var front := s[..2];
    var back := s[2..];
    assert front == [s[0], s[1]] && back == [s[2]];
    GreedyDerivesPair(rules, front);
    DerivesLetter(rules, "2", back, 3);
    assert ["1", "2"][1..] == ["2"];
    DerivesSeqStep(rules, ["1", "2"], s, 3, 2);
  }

  lemma GreedyRefuses(rules: map<string, Rule>, s: string)
    requires rules == GreedyRules() && s == "aab"
    ensures IsValid(rules, s, 3) == Done(false)
  {
    assert s[1..] == "ab";
    assert Check(rules, Seq(["3"]), s, 2) == Done((true, "ab"));
    assert Check(rules, rules["1"], s, 2) == Done((true, "ab"));
    assert Check(rules, rules["2"], "ab", 2) == Done((false, "ab"));
    SeqTakes(rules, ["1", "2"], s, s, 3, "ab");
    assert ["1", "2"][1..] == ["2"];
    SeqStops(rules, ["2"], s, "ab", 3);
  }

  // ---------------------------------------------------------------------
  // Reading the messages and counting the valid ones.

  /** `skip_while(|ln| ln.len() > 0)`: the rule lines are dropped. */
  function SkipNonEmpty(lines: seq<string>): seq<string>
  {
    if lines != [] && lines[0] != "" then SkipNonEmpty(lines[1..]) else lines
  }

  /** `skip_while(|ln| ln.len() == 0)`: the blank lines are dropped. */
  function SkipEmpty(lines: seq<string>): seq<string>
  {
    if lines != [] && lines[0] == "" then SkipEmpty(lines[1..]) else lines
  }

  /** `read_exprs`: the lines after the rules and the blank lines that
      follow them. */
  function ReadExprs(lines: seq<string>): seq<string> {
    SkipEmpty(SkipNonEmpty(lines))
  }

  lemma {:induction false} SkipNonEmptyOver(front: seq<string>, back: seq<string>)
    requires forall i :: 0 <= i < |front| ==> front[i] != ""
    requires back == [] || back[0] == ""
    ensures SkipNonEmpty(front + back) == back
    decreases |front|
  {
    if front == [] {
      assert front + back == back;
    } else {
      SkipNonEmptyOver(front[1..], back);
      assert (front + back)[0] == front[0];
      assert (front + back)[1..] == front[1..] + back;
    }
  }

  lemma {:induction false} SkipEmptyOver(front: seq<string>, back: seq<string>)
    requires forall i :: 0 <= i < |front| ==> front[i] == ""
    requires back == [] || back[0] != ""
    ensures SkipEmpty(front + back) == back
    decreases |front|
  {
    if front == [] {
      assert front + back == back;
    } else {
      SkipEmptyOver(front[1..], back);
      assert (front + back)[0] == front[0];
      assert (front + back)[1..] == front[1..] + back;
    }
  }

  /** Rules, blank lines, messages: `read_exprs` returns the messages. */
  lemma ReadExprsOfInput(ruleLines: seq<string>, blanks: seq<string>, messages: seq<string>)
    requires forall i :: 0 <= i < |ruleLines| ==> ruleLines[i] != ""
    requires |blanks| >= 1 && forall i :: 0 <= i < |blanks| ==> blanks[i] == ""
    requires messages == [] || messages[0] != ""
    ensures ReadExprs(ruleLines + blanks + messages) == messages
  {
    assert ruleLines + blanks + messages == ruleLines + (blanks + messages);
    SkipNonEmptyOver(ruleLines, blanks + messages);
    SkipEmptyOver(blanks, messages);
  }

  /** The number of valid messages, as `main` counts it; an unknown rule
      number panics. */
  function ValidCount(rules: map<string, Rule>, messages: seq<string>, fuel: nat): (r: Outcome<nat>)
    ensures r.Done? ==> r.value <= |messages|
  {
    if messages == [] then Done(0)
    else
      match ValidCount(rules, messages[..|messages| - 1], fuel)
      case Done(n) =>
        (match IsValid(rules, messages[|messages| - 1], fuel)
         case Done(ok) => Done(if ok then n + 1 else n)
         case Panic => Panic
         case OutOfFuel => OutOfFuel)
      case Panic => Panic
      case OutOfFuel => OutOfFuel
  }

  /** The loop of `main`. */
  method CountValid(rules: map<string, Rule>, messages: seq<string>, fuel: nat) returns (r: Outcome<nat>)
    ensures r == ValidCount(rules, messages, fuel)
  {
    var accum := 0;
    for i := 0 to |messages|
      invariant ValidCount(rules, messages[..i], fuel) == Done(accum)
    {
      assert messages[..i + 1][..i] == messages[..i];
      match IsValid(rules, messages[i], fuel)
      case Done(ok) =>
        if ok {
          accum := accum + 1;
        }
      case Panic =>
        StopSticks(rules, messages, i + 1, fuel);
        return Panic;
      case OutOfFuel =>
        StopSticks(rules, messages, i + 1, fuel);
        return OutOfFuel;
    }
    assert messages[..|messages|] == messages;
    return Done(accum);
  }

  /** Once the count stops at a message, it stops there for every longer
      list of messages. */
  lemma {:induction false} StopSticks(rules: map<string, Rule>, messages: seq<string>, k: nat, fuel: nat)
    requires 0 < k <= |messages| && !ValidCount(rules, messages[..k], fuel).Done?
    ensures ValidCount(rules, messages, fuel) == ValidCount(rules, messages[..k], fuel)
    decreases |messages|
  {
    if k < |messages| {
      assert messages[..|messages| - 1][..k] == messages[..k];
      StopSticks(rules, messages[..|messages| - 1], k, fuel);
    } else {
      assert messages[..k] == messages;
    }
  }

  /** The example input: two of its five messages are valid. */
  lemma ExampleCount(rules: map<string, Rule>, m0: string, m1: string, m2: string, m3: string, m4: string)
    requires rules == ExampleRules()
    requires m0 == "ababbb" && m1 == "bababa" && m2 == "abbbab" && m3 == "aaabbb" && m4 == "aaaabbb"
    ensures ValidCount(rules, [m0, m1, m2, m3, m4], 3) == Done(2)
  {
    ExampleInvalid(rules, m3);
    ExampleLeftover(rules, m4);
    ExampleCountFirst(rules, m0, m1, m2);
    assert [m0, m1, m2, m3][..3] == [m0, m1, m2];
    assert ValidCount(rules, [m0, m1, m2, m3], 3) == Done(2);
    assert [m0, m1, m2, m3, m4][..4] == [m0, m1, m2, m3];
  }

  lemma ExampleCountFirst(rules: map<string, Rule>, m0: string, m1: string, m2: string)
    requires rules == ExampleRules()
    requires m0 == "ababbb" && m1 == "bababa" && m2 == "abbbab"
    ensures ValidCount(rules, [m0, m1, m2], 3) == Done(2)
  {
    ExampleValid(rules, m0);
    ExampleInvalid(rules, m1);
    ExampleValid(rules, m2);
    assert [m0][..0] == [];
    assert ValidCount(rules, [m0], 3) == Done(1);
    assert [m0, m1][..1] == [m0];
    assert ValidCount(rules, [m0, m1], 3) == Done(1);
    assert [m0, m1, m2][..2] == [m0, m1];
  }
}
