/** Random passwords for a realm policy: their length, their character classes and their first character. */
module PasswordGeneration {
  import opened Wrappers
  import opened Text
  import opened PasswordShuffle

  /** The rules of a realm password policy; a maximum of zero means none. */
  datatype Policy = Policy(minLength: nat, maxLength: nat, digits: nat, upperCase: nat, lowerCase: nat,
                           specialChars: nat, regexPatterns: seq<string>)

  datatype Class = LowerCase | UpperCase | Digits | Special

  datatype PasswordError = Unsatisfiable | RandomSource | NoLetter

  const DEFAULT_LENGTH := 32

  const LOWER_CASE := "abcdefghijklmnopqrstuvwxyz"
  const UPPER_CASE := "ABCDEFGHIJKLMNOPQRSTUVWXYZ"
  const DIGITS := "0123456789"
  const SPECIAL := "-._~"

  function Alphabet(class_: Class): (r: string)
    ensures r != ""
  {
    match class_
    case LowerCase => LOWER_CASE
    case UpperCase => UPPER_CASE
    case Digits => DIGITS
    case Special => SPECIAL
  }

  function Count(s: string, class_: Class): nat {
    if s == "" then 0
    else Count(s[..|s| - 1], class_) + if s[|s| - 1] in Alphabet(class_) then 1 else 0
  }

  /** How many characters of a class are placed; one lower-case letter at least, for the first position. */
  function Minimum(policy: Policy, class_: Class): nat {
    match class_
    case LowerCase => if policy.lowerCase > 1 then policy.lowerCase else 1
    case UpperCase => policy.upperCase
    case Digits => policy.digits
    case Special => policy.specialChars
  }

  function Required(policy: Policy): nat {
    Minimum(policy, Digits) + Minimum(policy, UpperCase) + Minimum(policy, LowerCase) + Minimum(policy, Special)
  }

  function Max(a: nat, b: nat): (r: nat)
    ensures r >= a && r >= b && (r == a || r == b)
  {
    if a > b then a else b
  }

  function GeneratedLength(policy: Policy): nat {
    var length := Max(Max(DEFAULT_LENGTH, policy.minLength), Required(policy));
    if 0 < policy.maxLength < length then policy.maxLength else length
  }

  predicate IsLetter(c: char) { 'a' <= c <= 'z' || 'A' <= c <= 'Z' }

  /** How many characters the classes ask for together, counting one lower-case letter in any case. */
  ghost function Needed(policy: Policy): nat {
    policy.digits + policy.upperCase + policy.specialChars + if policy.lowerCase == 0 then 1 else policy.lowerCase
  }

  /** 32 characters, or more if the policy needs more, but never more than it allows. */
  ghost predicate RightLength(policy: Policy, length: nat) {
    if policy.maxLength > 0 && (policy.maxLength < 32 || policy.maxLength < policy.minLength
                                || policy.maxLength < Needed(policy))
    then length == policy.maxLength
    else
      && length >= 32 && length >= policy.minLength && length >= Needed(policy)
      && (length == 32 || length == policy.minLength || length == Needed(policy))
  }

  /** What Keycloak checks of a password under the policy, patterns aside. */
  ghost predicate Satisfies(policy: Policy, password: string) {
    && |password| >= policy.minLength && (policy.maxLength > 0 ==> |password| <= policy.maxLength)
    && Count(password, Digits) >= policy.digits && Count(password, UpperCase) >= policy.upperCase
    && Count(password, LowerCase) >= policy.lowerCase && Count(password, Special) >= policy.specialChars
  }

  // ----- counting -----

  lemma {:induction false} CountAppend(s: string, t: string, class_: Class)
    ensures Count(s + t, class_) == Count(s, class_) + Count(t, class_)
  {
    if t == "" {
      assert s + t == s;
    } else {
      assert (s + t)[..|s + t| - 1] == s + t[..|t| - 1];
      CountAppend(s, t[..|t| - 1], class_);
    }
  }

  lemma CountWithout(s: string, k: nat, class_: Class)
    requires k < |s|
    ensures Count(s, class_) == Count(s[..k] + s[k + 1..], class_) + if s[k] in Alphabet(class_) then 1 else 0
  {
    hide Alphabet;
    assert s == (s[..k] + [s[k]]) + s[k + 1..];
    CountAppend(s[..k] + [s[k]], s[k + 1..], class_);
    CountNext(s[..k], s[k], class_);
    CountAppend(s[..k], s[k + 1..], class_);
  }

  /** Counts do not depend on the order. */
  lemma {:induction false} CountPermuted(s: string, t: string, class_: Class)
    requires multiset(s) == multiset(t)
    ensures Count(s, class_) == Count(t, class_)
    decreases |s|
  {
    hide Alphabet;
    if s == "" {
      assert |multiset(t)| == 0;
    } else {
      var k := MatchLast(s, t);
      CountPermuted(s[..|s| - 1], t[..k] + t[k + 1..], class_);
      CountWithout(t, k, class_);
    }
  }

  lemma MatchLast(s: string, t: string) returns (k: nat)
    requires multiset(s) == multiset(t) && s != ""
    ensures k < |t| && t[k] == s[|s| - 1] && multiset(s[..|s| - 1]) == multiset(t[..k] + t[k + 1..])
  {
    var x := s[|s| - 1];
    assert x in multiset(t);
    k :| 0 <= k < |t| && t[k] == x;
    Without(t, k);
    Without(s, |s| - 1);
    assert s[..|s| - 1] + s[|s| - 1 + 1..] == s[..|s| - 1];
  }

  lemma Without(t: string, k: nat)
    requires k < |t|
    ensures multiset(t[..k] + t[k + 1..]) == multiset(t) - multiset{t[k]}
  {
    assert t == t[..k] + [t[k]] + t[k + 1..];
    assert multiset(t) == multiset(t[..k]) + multiset{t[k]} + multiset(t[k + 1..]);
  }

  lemma CountNext(s: string, c: char, class_: Class)
    ensures Count(s + [c], class_) == Count(s, class_) + if c in Alphabet(class_) then 1 else 0
  {
    assert (s + [c])[..|s|] == s;
  }

  lemma {:induction false} CountedLetter(s: string)
    requires Count(s, LowerCase) > 0
    ensures exists i :: 0 <= i < |s| && IsLetter(s[i])
  {
    var rest := s[..|s| - 1];
    if s[|s| - 1] in Alphabet(LowerCase) {
      ClassCharacters(s[|s| - 1]);
    } else {
      CountedLetter(rest);
      var i :| 0 <= i < |rest| && IsLetter(rest[i]);
      assert s[i] == rest[i];
    }
  }

  lemma LowerCaseCharacters(c: char)
    ensures c in LOWER_CASE <==> 'a' <= c <= 'z'
  {
    if 'a' <= c <= 'z' {
      assert c == LOWER_CASE[c as int - 'a' as int];
    }
  }

  lemma UpperCaseCharacters(c: char)
    ensures c in UPPER_CASE <==> 'A' <= c <= 'Z'
  {
    if 'A' <= c <= 'Z' {
      assert c == UPPER_CASE[c as int - 'A' as int];
    }
  }

  lemma OtherCharacters(c: char)
    ensures c in DIGITS <==> '0' <= c <= '9'
    ensures c in SPECIAL <==> c == '-' || c == '.' || c == '_' || c == '~'
  {
    if '0' <= c <= '9' {
      assert c == DIGITS[c as int - '0' as int];
    }
  }

  /** The characters of each class. */
  lemma ClassCharacters(c: char)
    ensures c in Alphabet(LowerCase) <==> 'a' <= c <= 'z'
    ensures c in Alphabet(UpperCase) <==> 'A' <= c <= 'Z'
    ensures c in Alphabet(Digits) <==> '0' <= c <= '9'
    ensures c in Alphabet(Special) <==> c == '-' || c == '.' || c == '_' || c == '~'
  {
    LowerCaseCharacters(c);
    UpperCaseCharacters(c);
    OtherCharacters(c);
  }

  // ----- placing the characters -----

  /** Characters the policy lets the generator use: special ones only when it asks for some. */
  predicate Offered(policy: Policy, c: char) {
    c in LOWER_CASE || c in UPPER_CASE || c in DIGITS || (policy.specialChars > 0 && c in SPECIAL)
  }

  /** The number of characters the classes not in `todo` require. */
  function Placed(policy: Policy, todo: set<Class>): int {
    (if Digits in todo then 0 else Minimum(policy, Digits))
    + (if UpperCase in todo then 0 else Minimum(policy, UpperCase))
    + (if LowerCase in todo then 0 else Minimum(policy, LowerCase))
    + (if Special in todo then 0 else Minimum(policy, Special))
  }

  /** Offered characters only, and the minimum of every class not in `todo`. */
  ghost predicate Drawn(policy: Policy, todo: set<Class>, password: string) {
    && (forall c :: c in password ==> Offered(policy, c))
    && forall class_ :: class_ !in todo ==> Count(password, class_) >= Minimum(policy, class_)
  }

  method RandomCharacter(alphabet: string, reliable: bool) returns (c: Option<char>)
    requires alphabet != ""
    ensures c.Some? ==> c.value in alphabet
    ensures reliable ==> c.Some?
  {
    var drawn, i := RandomBelow(|alphabet|, reliable);
    c := if drawn then Some(alphabet[i]) else None;
  }

  lemma DrawnNext(policy: Policy, todo: set<Class>, password: string, c: char)
    requires Drawn(policy, todo, password) && Offered(policy, c)
    ensures Drawn(policy, todo, password + [c])
  {
    forall class_ | class_ !in todo
      ensures Count(password + [c], class_) >= Minimum(policy, class_)
    {
      CountNext(password, c, class_);
    }
  }

  /** Adds the minimum of one class. */
  method PlaceClass(policy: Policy, todo: set<Class>, class_: Class, before: string, reliable: bool)
    returns (ok: bool, password: string)
    requires class_ in todo && Drawn(policy, todo, before)
    ensures ok ==> Drawn(policy, todo - {class_}, password) && |password| == |before| + Minimum(policy, class_)
    ensures reliable ==> ok
  {
    hide Offered;
    password := before;
    for i := 0 to Minimum(policy, class_)
      invariant |password| == |before| + i && Count(password, class_) >= i && Drawn(policy, todo, password)
    {
      var c := RandomCharacter(Alphabet(class_), reliable);
      if c.None? {
        return false, password;
      }
      ClassIsOffered(policy, class_, c.value);
      DrawnNext(policy, todo, password, c.value);
      CountNext(password, c.value, class_);
      password := password + [c.value];
    }
    return true, password;
  }

  lemma ClassIsOffered(policy: Policy, class_: Class, c: char)
    requires c in Alphabet(class_) && Minimum(policy, class_) > 0
    ensures Offered(policy, c)
  {
  }

  /** Places the minimum of each class, the classes taken in any order. */
  method PlaceRequired(policy: Policy, reliable: bool) returns (ok: bool, password: string)
    ensures ok ==> Drawn(policy, {}, password) && |password| == Required(policy)
    ensures reliable ==> ok
  {
    hide Minimum, Drawn;
    var todo := {LowerCase, UpperCase, Digits, Special};
    NothingDrawn(policy, todo);
    password := "";
    while todo != {}
      invariant Drawn(policy, todo, password) && |password| == Placed(policy, todo)
      decreases todo
    {
      var class_ :| class_ in todo;
      ok, password := PlaceClass(policy, todo, class_, password, reliable);
      if !ok {
        return;
      }
      todo := todo - {class_};
    }
    ok := true;
  }

  lemma NothingDrawn(policy: Policy, todo: set<Class>)
    requires todo == {LowerCase, UpperCase, Digits, Special}
    ensures Drawn(policy, todo, "")
  {
  }

  function Filler(policy: Policy): string {
    LOWER_CASE + UPPER_CASE + DIGITS + if policy.specialChars > 0 then SPECIAL else ""
  }

  /** Every character offered can be drawn, and no other. */
  lemma FillerIsOffered(policy: Policy, c: char)
    ensures c in Filler(policy) <==> Offered(policy, c)
  {
  }

  /** Swaps the first letter into the leading position. */
  method MoveLetterFirst(a: array<char>) returns (ok: bool)
    modifies a
    ensures ok <==> exists i :: 0 <= i < a.Length && IsLetter(old(a[i]))
    ensures ok ==> a.Length > 0 && IsLetter(a[0])
    ensures ok ==> exists i :: 0 <= i < a.Length && a[..] == Swap(old(a[..]), 0, i)
                               && forall k :: 0 <= k < i ==> !IsLetter(old(a[k]))
    ensures !ok ==> a[..] == old(a[..])
  {
    hide IsLetter;
    for i := 0 to a.Length
      invariant a[..] == old(a[..]) && forall k :: 0 <= k < i ==> !IsLetter(a[k])
    {
      if IsLetter(a[i]) {
        ghost var before := a[..];
        a[0], a[i] := a[i], a[0];
        assert a[..] == Swap(before, 0, i);
        return true;
      }
    }
    return false;
  }

  /**
   Whatever is drawn, a password is generated unless the random source fails or the
   classes require more characters than the maximum; it begins with a letter, and
   uses letters and digits only when no special character is asked for. It meets
   the policy exactly when the policy's own lengths do not contradict each other.
   */
  method GeneratePassword(policy: Policy, reliable: bool) returns (r: Result<string, PasswordError>)
    ensures r == Failure(Unsatisfiable) <==> 0 < policy.maxLength < Needed(policy)
    ensures r != Failure(NoLetter) && (reliable ==> r != Failure(RandomSource))
    ensures r.Success? ==> RightLength(policy, |r.value|) && r.value != "" && IsLetter(r.value[0])
    ensures r.Success? && policy.specialChars == 0 ==> forall c :: c in r.value ==> IsLetter(c) || IsDigit(c)
    ensures r.Success? ==>
              (Satisfies(policy, r.value) <==> policy.maxLength == 0 || policy.minLength <= policy.maxLength)
  {
    hide Drawn, Minimum, Offered, IsLetter, Satisfies, Filler, Shuffled;
    LengthIsRight(policy);
    var required := Required(policy);
    var length := Max(Max(DEFAULT_LENGTH, policy.minLength), required);
    if policy.maxLength > 0 {
      if required > policy.maxLength {
        return Failure(Unsatisfiable);
      }
      length := if length < policy.maxLength then length else policy.maxLength;
    }
    var ok, password := PlaceRequired(policy, reliable);
    if !ok {
      return Failure(RandomSource);
    }
    var filler := Filler(policy);
    FillerNotEmpty(policy);
    while |password| < length
      invariant |password| <= length && Drawn(policy, {}, password)
    {
      var c := RandomCharacter(filler, reliable);
      if c.None? {
        return Failure(RandomSource);
      }
      FillerIsOffered(policy, c.value);
      DrawnNext(policy, {}, password, c.value);
      password := password + [c.value];
    }
    var bytes := new char[|password|](i requires 0 <= i < |password| => password[i]);
    assert bytes[..] == password;
    ghost var picks;
    ok, picks := Shuffle(bytes, reliable);
    if !ok {
      return Failure(RandomSource);
    }
    ShuffledKeepsElements(password, picks);
    DrawnPermuted(policy, password, bytes[..]);
    ghost var shuffled := bytes[..];
    DrawnHasLetter(policy, shuffled);
    ok := MoveLetterFirst(bytes);
    if !ok {
      return Failure(NoLetter);
    }
    ghost var i :| 0 <= i < |shuffled| && bytes[..] == Swap(shuffled, 0, i);
    SwapKeepsElements(shuffled, 0, i);
    DrawnPermuted(policy, shuffled, bytes[..]);
    DrawnMeansSatisfied(policy, bytes[..]);
    return Success(bytes[..]);
  }

  lemma LengthIsRight(policy: Policy)
    ensures Required(policy) == Needed(policy) && RightLength(policy, GeneratedLength(policy))
  {
  }

  lemma FillerNotEmpty(policy: Policy)
    ensures Filler(policy) != ""
  {
  }

  lemma DrawnPermuted(policy: Policy, s: string, t: string)
    requires Drawn(policy, {}, s) && multiset(s) == multiset(t)
    ensures Drawn(policy, {}, t) && |s| == |t|
  {
    hide Offered;
    assert |multiset(s)| == |s| && |multiset(t)| == |t|;
    forall c | c in t
      ensures Offered(policy, c)
    {
      assert c in multiset(t);
    }
    forall class_
      ensures Count(t, class_) >= Minimum(policy, class_)
    {
      CountPermuted(s, t, class_);
    }
  }

  lemma DrawnHasLetter(policy: Policy, s: string)
    requires Drawn(policy, {}, s)
    ensures exists i :: 0 <= i < |s| && IsLetter(s[i])
  {
    assert Count(s, LowerCase) >= Minimum(policy, LowerCase);
    CountedLetter(s);
  }

  lemma DrawnMeansSatisfied(policy: Policy, s: string)
    requires Drawn(policy, {}, s) && |s| == GeneratedLength(policy)
    requires policy.maxLength == 0 || Required(policy) <= policy.maxLength
    ensures Satisfies(policy, s) <==> policy.maxLength == 0 || policy.minLength <= policy.maxLength
    ensures policy.specialChars == 0 ==> forall c :: c in s ==> IsLetter(c) || IsDigit(c)
  {
    assert Count(s, LowerCase) >= Minimum(policy, LowerCase);
    assert Count(s, UpperCase) >= Minimum(policy, UpperCase);
    assert Count(s, Digits) >= Minimum(policy, Digits);
    assert Count(s, Special) >= Minimum(policy, Special);
    if policy.specialChars == 0 {
      forall c | c in s
        ensures IsLetter(c) || IsDigit(c)
      {
        ClassCharacters(c);
        assert Offered(policy, c);
      }
    }
  }
}
