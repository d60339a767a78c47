/** Reading the password policy of a realm from its text. */
module PasswordPolicy {
  import opened Wrappers
  import opened Text
  import opened PasswordGeneration

  const CONJUNCTION := " and "
  const MAX_INT := 0x7FFF_FFFF_FFFF_FFFF
  const REGEX_PATTERN := "regexPattern"

  predicate IsSpace(c: char) {
    c in {'\t', '\n', '\U{0B}', '\U{0C}', '\r', ' ', '\U{85}', '\U{A0}', '\U{1680}', '\U{2028}', '\U{2029}',
          '\U{202F}', '\U{205F}', '\U{3000}'}
    || '\U{2000}' <= c <= '\U{200A}'
  }

  /** The characters Unicode counts as white space, without the information separators. */
  lemma SpacesAre(c: char)
    ensures var n := c as int;
            IsSpace(c) <==>
              || 0x09 <= n <= 0x0D || n == 0x20 || n == 0x85 || n == 0xA0 || n == 0x1680
              || 0x2000 <= n <= 0x200A || n == 0x2028 || n == 0x2029 || n == 0x202F || n == 0x205F || n == 0x3000
  {
  }

  function TrimLeft(s: string): string {
    if s != "" && IsSpace(s[0]) then TrimLeft(s[1..]) else s
  }

  function TrimRight(s: string): string {
    if s != "" && IsSpace(s[|s| - 1]) then TrimRight(s[..|s| - 1]) else s
  }

  /** A rule `name(argument)` in its two parts; without parentheses the argument is empty. */
  function SplitRule(rule: string): (string, string) {
    if '(' !in rule || rule[|rule| - 1] != ')' then (rule, "")
    else
      var argument := After(rule, '(');
      Partition(rule, '(');
      assert argument != "" by { assert rule == Before(rule, '(') + ['('] + argument; }
      (Before(rule, '('), argument[..|argument| - 1])
  }

  /** A decimal number with an optional sign, none when it does not fit 64 bits. */
  function Atoi(s: string): Option<int> {
    var signed := s != "" && (s[0] == '+' || s[0] == '-');
    var digits := if signed then s[1..] else s;
    if !AllDigits(digits) then None
    else
      var magnitude: int := ToNat(digits);
      var value := if signed && s[0] == '-' then -magnitude else magnitude;
      if -MAX_INT - 1 <= value <= MAX_INT then Some(value) else None
  }

  /** The two parts of a rule as it stands in the policy text. */
  function RuleParts(rule: string): (string, string) { SplitRule(TrimRight(TrimLeft(rule))) }

  /** Digits with or without a sign are read as the number they write, if it fits 64 bits. */
  lemma AtoiMeans(digits: string)
    requires AllDigits(digits)
    ensures var n: int := ToNat(digits);
            && Atoi(digits) == Atoi("+" + digits) == (if n <= 9_223_372_036_854_775_807 then Some(n) else None)
            && Atoi("-" + digits) == (if n <= 9_223_372_036_854_775_808 then Some(-n) else None)
  {
    hide ToNat;
    assert digits[0] in digits;
    assert ("+" + digits)[1..] == digits && ("-" + digits)[1..] == digits;
  }

  /** Nothing else is a number. */
  lemma AtoiRefuses(s: string)
    requires !AllDigits(s) && forall digits :: AllDigits(digits) ==> s != "+" + digits && s != "-" + digits
    ensures Atoi(s) == None
  {
    hide AllDigits, ToNat;
    if s != "" {
      assert s == [s[0]] + s[1..];
    }
  }

  // ----- what a policy text means -----

  /** The number a rule gives for `name`, if it is about `name` and has a number not below zero. */
  function Setting(rule: string, name: string): Option<nat> {
    var (ruleName, argument) := RuleParts(rule);
    var value := Atoi(argument);
    if ruleName == name && value.Some? && value.value >= 0 then
      var n: nat := value.value;
      Some(n)
    else None
  }

  /** The setting of the last rule that has one, zero when none has. */
  function LastSetting(rules: seq<string>, name: string): nat {
    if rules == [] then 0
    else
      var last := Setting(rules[|rules| - 1], name);
      if last.Some? then last.value else LastSetting(rules[..|rules| - 1], name)
  }

  function Pattern(rule: string): seq<string> {
    var (name, argument) := RuleParts(rule);
    if name == REGEX_PATTERN && argument != "" then [argument] else []
  }

  function Patterns(rules: seq<string>): seq<string> {
    if rules == [] then [] else Patterns(rules[..|rules| - 1]) + Pattern(rules[|rules| - 1])
  }

  function PolicyOf(rules: seq<string>): Policy {
    Policy(LastSetting(rules, "length"), LastSetting(rules, "maxLength"), LastSetting(rules, "digits"),
           LastSetting(rules, "upperCase"), LastSetting(rules, "lowerCase"), LastSetting(rules, "specialChars"),
           Patterns(rules))
  }

  /** Reads the rules in order, each overwriting what an earlier one set. */
  method ParsePasswordPolicy(text: string) returns (parsed: Policy)
    ensures parsed == PolicyOf(SplitOn(text, CONJUNCTION))
  {
    hide RuleParts, Atoi;
    parsed := Policy(0, 0, 0, 0, 0, 0, []);
    var rules := SplitOn(text, CONJUNCTION);
    for i := 0 to |rules|
      invariant parsed == PolicyOf(rules[..i])
    {
      assert rules[..i + 1][..i] == rules[..i];
      NameMatches();
      var (name, argument) := RuleParts(rules[i]);
      if name == "" {
        continue;
      }
      if name == REGEX_PATTERN {
        if argument != "" {
          parsed := parsed.(regexPatterns := parsed.regexPatterns + [argument]);
        }
        continue;
      }
      var value := Atoi(argument);
      if value.None? || value.value < 0 {
        continue;
      }
      if name == "length" {
        parsed := parsed.(minLength := value.value);
      } else if name == "maxLength" {
        parsed := parsed.(maxLength := value.value);
      } else if name == "digits" {
        parsed := parsed.(digits := value.value);
      } else if name == "upperCase" {
        parsed := parsed.(upperCase := value.value);
      } else if name == "lowerCase" {
        parsed := parsed.(lowerCase := value.value);
      } else if name == "specialChars" {
        parsed := parsed.(specialChars := value.value);
      }
    }
    assert rules[..|rules|] == rules;
  }

  lemma NameMatches()
    ensures "length" != "maxLength" && "length" != "digits" && "length" != "upperCase" && "length" != "lowerCase"
            && "length" != "specialChars"
    ensures "maxLength" != "digits" && "maxLength" != "upperCase" && "maxLength" != "lowerCase"
            && "maxLength" != "specialChars"
    ensures "digits" != "upperCase" && "digits" != "lowerCase" && "digits" != "specialChars"
    ensures "upperCase" != "lowerCase" && "upperCase" != "specialChars" && "lowerCase" != "specialChars"
    ensures REGEX_PATTERN !in {"", "length", "maxLength", "digits", "upperCase", "lowerCase", "specialChars"}
    ensures "" !in {"length", "maxLength", "digits", "upperCase", "lowerCase", "specialChars"}
  {
    assert "length"[0] == 'l' && "maxLength"[0] == 'm' && "digits"[0] == 'd';
    assert "upperCase"[0] == 'u' && "lowerCase"[0] == 'l' && "specialChars"[0] == 's';
    assert "length"[1] == 'e' && "lowerCase"[1] == 'o' && REGEX_PATTERN[0] == 'r';
  }

  /** A rule the operator does not model changes nothing, wherever it stands. */
  lemma {:induction false} UnmodelledRuleIsIgnored(before: seq<string>, rule: string, after: seq<string>)
    requires RuleParts(rule).0 !in
               {"length", "maxLength", "digits", "upperCase", "lowerCase", "specialChars", REGEX_PATTERN}
    ensures PolicyOf(before + [rule] + after) == PolicyOf(before + after)
  {
    hide RuleParts;
    if after == [] {
      assert before + [rule] + after == before + [rule] && before + after == before;
      assert (before + [rule])[..|before|] == before;
    } else {
      var last := |after| - 1;
      UnmodelledRuleIsIgnored(before, rule, after[..last]);
      assert (before + [rule] + after)[..|before| + 1 + last] == before + [rule] + after[..last];
      assert (before + after)[..|before| + last] == before + after[..last];
    }
  }

  // ----- writing a policy, and reading it back -----

  function Decimal(n: nat): (s: string)
    ensures AllDigits(s) && ToNat(s) == n
  {
    var digit := ('0' as int + n % 10) as char;
    var s := if n < 10 then [digit] else Decimal(n / 10) + [digit];
    assert s[..|s| - 1] == if n < 10 then "" else Decimal(n / 10);
    s
  }

  function Rule(name: string, argument: string): string { name + "(" + argument + ")" }

  function PatternRules(patterns: seq<string>): (rules: seq<string>)
    ensures |rules| == |patterns| && forall i :: 0 <= i < |rules| ==> rules[i] == Rule(REGEX_PATTERN, patterns[i])
  {
    seq(|patterns|, i requires 0 <= i < |patterns| => Rule(REGEX_PATTERN, patterns[i]))
  }

  const NAMES: seq<string> := ["length", "maxLength", "digits", "upperCase", "lowerCase", "specialChars"]

  function Values(policy: Policy): (values: seq<nat>)
    ensures |values| == |NAMES|
  {
    [policy.minLength, policy.maxLength, policy.digits, policy.upperCase, policy.lowerCase, policy.specialChars]
  }

  function NumberRules(values: seq<nat>): (rules: seq<string>)
    requires |values| == |NAMES|
    ensures |rules| == |NAMES| && forall k :: 0 <= k < |NAMES| ==> rules[k] == Rule(NAMES[k], Decimal(values[k]))
  {
    seq(|NAMES|, k requires 0 <= k < |NAMES| => Rule(NAMES[k], Decimal(values[k])))
  }

  /** The rules of a policy, as Keycloak writes them. */
  function Rules(policy: Policy): seq<string> {
    NumberRules(Values(policy)) + PatternRules(policy.regexPatterns)
  }

  predicate Writable(policy: Policy) {
    && (forall value :: value in Values(policy) ==> value <= MAX_INT)
    && forall p :: p in policy.regexPatterns ==> p != "" && NoConjunction(p)
  }

  predicate NoConjunction(s: string) {
    forall k :: 0 <= k < |s| ==> !OccursAt(s, CONJUNCTION, k)
  }

  /** A rule whose name has no space or parenthesis is read as its name and argument. */
  lemma RuleIsRead(name: string, argument: string)
    requires name != "" && forall c :: c in name ==> c != '(' && !IsSpace(c)
    ensures RuleParts(Rule(name, argument)) == (name, argument)
  {
    var rule := Rule(name, argument);
    assert rule[0] == name[0] && name[0] in name && rule[|rule| - 1] == ')' && !IsSpace(')');
    PartitionAt(name, argument + ")", '(');
    assert rule == name + ['('] + (argument + ")");
    assert (argument + ")")[..|argument|] == argument;
  }

  predicate Blank(s: string) { forall c :: c in s ==> IsSpace(c) }

  lemma {:induction false} TrimLeftBlank(a: string, s: string)
    requires Blank(a)
    ensures TrimLeft(a + s) == TrimLeft(s)
  {
    if a == "" {
      assert a + s == s;
    } else {
      assert a[0] in a && (a + s)[1..] == a[1..] + s;
      TrimLeftBlank(a[1..], s);
    }
  }

  lemma {:induction false} TrimRightBlank(s: string, b: string)
    requires Blank(b)
    ensures TrimRight(s + b) == TrimRight(s)
  {
    if b == "" {
      assert s + b == s;
    } else {
      var last := |b| - 1;
      assert b[last] in b && (s + b)[..|s| + last] == s + b[..last];
      TrimRightBlank(s, b[..last]);
    }
  }

  lemma {:induction false} TrimLeftFirst(s: string, b: string)
    requires Blank(b)
    ensures TrimLeft(s + b) == if Blank(s) then "" else TrimLeft(s) + b
    ensures Blank(s) ==> TrimLeft(s) == ""
  {
    if s == "" {
      assert s + b == b;
      TrimLeftBlank(b, "");
      assert b + "" == b;
    } else if IsSpace(s[0]) {
      assert (s + b)[1..] == s[1..] + b && s == [s[0]] + s[1..];
      TrimLeftFirst(s[1..], b);
    } else {
      assert s[0] in s;
    }
  }

  /** White space around a rule makes no difference. */
  lemma SpaceAroundIsIgnored(a: string, rule: string, b: string)
    requires Blank(a) && Blank(b)
    ensures RuleParts(a + rule + b) == RuleParts(rule)
  {
    assert a + rule + b == a + (rule + b);
    TrimLeftBlank(a, rule + b);
    TrimLeftFirst(rule, b);
    TrimRightBlank(TrimLeft(rule), b);
  }

  /** A rule without an argument sets nothing. */
  lemma RuleWithoutArgument(rule: string)
    requires '(' !in rule
    ensures Pattern(rule) == [] && forall name :: Setting(rule, name) == None
  {
    NoneTrimmedIn(rule, '(');
  }

  lemma {:induction false} NoneTrimmedIn(s: string, c: char)
    requires c !in s
    ensures c !in TrimLeft(s) && c !in TrimRight(s) && c !in TrimRight(TrimLeft(s))
    decreases |s|
  {
    if s != "" {
      NoneTrimmedIn(s[1..], c);
      NoneTrimmedIn(s[..|s| - 1], c);
    }
  }

  lemma DecimalIsRead(n: nat)
    requires n <= MAX_INT
    ensures Atoi(Decimal(n)) == Some(n)
  {
    assert Decimal(n)[0] in Decimal(n);
  }

  /** No separator starts in a rule written with such a name. */
  lemma RuleIsSeparable(name: string, argument: string)
    requires ' ' !in name && NoConjunction(argument)
    ensures Separable(Rule(name, argument), CONJUNCTION)
  {
    var rule := Rule(name, argument);
    var text, start := rule + CONJUNCTION, |name| + 1;
    forall k | 0 <= k < |rule|
      ensures !OccursAt(text, CONJUNCTION, k)
    {
      ConjunctionCharacters(text, k);
      assert text[|rule| - 1] == ')' && text[|name|] == '(';
      assert k < |name| ==> text[k] == name[k] && name[k] in name;
      if start <= k && k + 5 <= start + |argument| {
        assert argument[k - start..k - start + 5] == text[k..k + 5];
        assert !OccursAt(argument, CONJUNCTION, k - start);
      }
    }
  }

  lemma ConjunctionCharacters(text: string, k: nat)
    ensures |CONJUNCTION| == 5
    ensures OccursAt(text, CONJUNCTION, k) ==> text[k] == ' ' && ')' !in text[k..k + 5]
    ensures OccursAt(text, CONJUNCTION, k) ==> forall i :: k <= i < k + 5 ==> text[i] == text[k..k + 5][i - k] != ')'
  {
    if OccursAt(text, CONJUNCTION, k) {
      assert text[k..k + 5] == " and " && ')' !in " and ";
      assert text[k] == text[k..k + 5][0];
      forall i | k <= i < k + 5
        ensures text[i] == text[k..k + 5][i - k] != ')'
      {
        assert text[k..k + 5][i - k] in text[k..k + 5];
      }
    }
  }

  /** The setting a rule makes stands when no later rule is about the same name. */
  lemma {:induction false} SettingStands(rules: seq<string>, k: nat, name: string)
    requires k < |rules| && Setting(rules[k], name).Some?
    requires forall i :: k < i < |rules| ==> Setting(rules[i], name).None?
    ensures LastSetting(rules, name) == Setting(rules[k], name).value
  {
    hide Setting;
    if k < |rules| - 1 {
      SettingStands(rules[..|rules| - 1], k, name);
    }
  }

  lemma {:induction false} PatternsRead(numbers: seq<string>, patterns: seq<string>)
    requires forall r :: r in numbers ==> Pattern(r) == []
    requires forall p :: p in patterns ==> p != ""
    ensures Patterns(numbers + PatternRules(patterns)) == patterns
  {
    hide Pattern, Rule;
    var rules := numbers + PatternRules(patterns);
    if patterns == [] {
      assert rules == numbers;
      NoPatterns(numbers);
    } else {
      var last := |patterns| - 1;
      assert patterns[last] in patterns && forall p :: p in patterns[..last] ==> p in patterns;
      PatternsRead(numbers, patterns[..last]);
      assert rules[..|rules| - 1] == numbers + PatternRules(patterns[..last]);
      PatternIsRead(patterns[last]);
      assert patterns == patterns[..last] + [patterns[last]];
    }
  }

  lemma {:induction false} NoPatterns(rules: seq<string>)
    requires forall r :: r in rules ==> Pattern(r) == []
    ensures Patterns(rules) == []
  {
    hide Pattern;
    if rules != [] {
      assert rules[|rules| - 1] in rules;
      NoPatterns(rules[..|rules| - 1]);
    }
  }

  lemma PatternIsRead(pattern: string)
    requires pattern != ""
    ensures Pattern(Rule("regexPattern", pattern)) == [pattern]
  {
    RuleIsRead("regexPattern", pattern);
  }

  lemma NamesArePlain(k: nat)
    requires k < |NAMES|
    ensures NAMES[k] != "" && NAMES[k] != REGEX_PATTERN && forall c :: c in NAMES[k] ==> 'A' <= c <= 'z'
    ensures forall j :: 0 <= j < |NAMES| && j != k ==> NAMES[j] != NAMES[k]
  {
    NameMatches();
  }

  lemma NumberRuleIsRead(k: nat, value: nat)
    requires k < |NAMES| && value <= MAX_INT
    ensures ' ' !in NAMES[k]
    ensures Setting(Rule(NAMES[k], Decimal(value)), NAMES[k]) == Some(value)
    ensures forall j :: 0 <= j < |NAMES| && j != k ==> Setting(Rule(NAMES[k], Decimal(value)), NAMES[j]) == None
    ensures Pattern(Rule(NAMES[k], Decimal(value))) == []
  {
    hide RuleParts, Atoi;
    NamesArePlain(k);
    RuleIsRead(NAMES[k], Decimal(value));
    DecimalIsRead(value);
  }

  lemma PatternSetsNoNumber(pattern: string)
    ensures ' ' !in REGEX_PATTERN && forall j :: 0 <= j < |NAMES| ==>
              Setting(Rule(REGEX_PATTERN, pattern), NAMES[j]) == None
  {
    hide RuleParts, Atoi;
    RuleIsRead(REGEX_PATTERN, pattern);
    forall j | 0 <= j < |NAMES|
      ensures NAMES[j] != REGEX_PATTERN
    {
      NamesArePlain(j);
    }
  }

  lemma NumberHasNoConjunction(n: nat)
    ensures NoConjunction(Decimal(n))
  {
    forall k | 0 <= k < |Decimal(n)|
      ensures !OccursAt(Decimal(n), CONJUNCTION, k)
    {
      assert Decimal(n)[k] in Decimal(n);
      assert k + 5 <= |Decimal(n)| ==> Decimal(n)[k..k + 5][0] == Decimal(n)[k];
    }
  }

  lemma RulesAreSeparable(policy: Policy)
    requires Writable(policy)
    ensures forall r :: r in Rules(policy) ==> Separable(r, CONJUNCTION)
  {
    hide Separable, NoConjunction, Rule, Setting, Pattern;
    var rules := Rules(policy);
    forall i | 0 <= i < |rules|
      ensures Separable(rules[i], CONJUNCTION)
    {
      if i < |NAMES| {
        assert Values(policy)[i] in Values(policy);
        NumberRuleIsRead(i, Values(policy)[i]);
        NumberHasNoConjunction(Values(policy)[i]);
        RuleIsSeparable(NAMES[i], Decimal(Values(policy)[i]));
      } else {
        var pattern := policy.regexPatterns[i - |NAMES|];
        PatternSetsNoNumber(pattern);
        RuleIsSeparable(REGEX_PATTERN, pattern);
      }
    }
  }

  lemma ValueIsRead(policy: Policy, k: nat)
    requires Writable(policy) && k < |NAMES|
    ensures LastSetting(Rules(policy), NAMES[k]) == Values(policy)[k]
  {
    hide Setting, Pattern, Rule, NoConjunction;
    var rules := Rules(policy);
    assert Values(policy)[k] in Values(policy);
    NumberRuleIsRead(k, Values(policy)[k]);
    forall i | k < i < |rules|
      ensures Setting(rules[i], NAMES[k]).None?
    {
      if i < |NAMES| {
        assert Values(policy)[i] in Values(policy);
        NumberRuleIsRead(i, Values(policy)[i]);
      } else {
        PatternSetsNoNumber(policy.regexPatterns[i - |NAMES|]);
      }
    }
    SettingStands(rules, k, NAMES[k]);
  }

  lemma RulesAreRead(policy: Policy)
    requires Writable(policy)
    ensures PolicyOf(Rules(policy)) == policy
  {
    hide Pattern, Rule, NoConjunction, LastSetting, Patterns, NumberRules;
    ValueIsRead(policy, 0);
    ValueIsRead(policy, 1);
    ValueIsRead(policy, 2);
    ValueIsRead(policy, 3);
    ValueIsRead(policy, 4);
    ValueIsRead(policy, 5);
    var numbers := NumberRules(Values(policy));
    forall r | r in numbers
      ensures Pattern(r) == []
    {
      var k :| 0 <= k < |NAMES| && numbers[k] == r;
      assert Values(policy)[k] in Values(policy);
      NumberRuleIsRead(k, Values(policy)[k]);
    }
    PatternsRead(numbers, policy.regexPatterns);
  }

  /** A policy written out is read back unchanged. */
  lemma WrittenPolicyIsRead(policy: Policy)
    requires Writable(policy)
    ensures PolicyOf(SplitOn(JoinWith(Rules(policy), CONJUNCTION), CONJUNCTION)) == policy
  {
    RulesAreSeparable(policy);
    SplitJoinWith(Rules(policy), CONJUNCTION);
    RulesAreRead(policy);
  }
}
