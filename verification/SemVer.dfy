/**
 Release versions: which strings are accepted, how two of them are compared, and
 the precedence rules of section 11 of Semantic Versioning 2.0.0.
 */
module SemVer {
  import opened Ordering
  import opened Text

  // ----- the checks and the comparison -----

  predicate IdentifierChar(c: char) {
    IsDigit(c) || 'A' <= c <= 'Z' || 'a' <= c <= 'z' || c == '-'
  }

  function Core(version: string): seq<string> { Split(Before(version, '-'), '.') }

  /** The dot-separated pre-release identifiers; none when there is no hyphen. */
  function Prerelease(version: string): seq<string> {
    if '-' in version then Split(After(version, '-'), '.') else []
  }

  /** Three numerals without leading zeros, then an optional pre-release part. */
  predicate MatchesPattern(version: string) {
    && |Core(version)| == 3 && (forall part :: part in Core(version) ==> Canonical(part))
    && (forall id :: id in Prerelease(version) ==> id != "" && forall c :: c in id ==> IdentifierChar(c))
  }

  predicate ValidSemver(version: string) {
    MatchesPattern(version)
    && forall id :: id in Prerelease(version) ==> !(AllDigits(id) && |id| > 1 && id[0] == '0')
  }

  /** Compares pre-release identifiers from left to right, then by their number. */
  function CompareIdentifiers(left: seq<string>, right: seq<string>): int {
    if left == [] || right == [] then
      if |left| == |right| then 0 else if |left| > |right| then 1 else -1
    else if left[0] == right[0] then CompareIdentifiers(left[1..], right[1..])
    else if AllDigits(left[0]) && AllDigits(right[0]) then
      if ToNat(left[0]) > ToNat(right[0]) then 1 else -1
    else if AllDigits(left[0]) != AllDigits(right[0]) then
      if AllDigits(left[0]) then -1 else 1
    else if Less(right[0], left[0]) then 1
    else -1
  }

  function CoreNumbers(version: string): (nat, nat, nat)
    requires MatchesPattern(version)
  {
    var parts := Core(version);
    assert parts[0] in parts && parts[1] in parts && parts[2] in parts;
    (ToNat(parts[0]), ToNat(parts[1]), ToNat(parts[2]))
  }

  /** The major and the minor numbers are the same. */
  predicate SameMinor(a: string, b: string)
    requires MatchesPattern(a) && MatchesPattern(b)
  {
    CoreNumbers(a).0 == CoreNumbers(b).0 && CoreNumbers(a).1 == CoreNumbers(b).1
  }

  predicate CoreLess(a: (nat, nat, nat), b: (nat, nat, nat)) {
    a.0 < b.0 || (a.0 == b.0 && (a.1 < b.1 || (a.1 == b.1 && a.2 < b.2)))
  }

  function CompareSemver(left: string, right: string): int
    requires MatchesPattern(left) && MatchesPattern(right)
  {
    var a, b := CoreNumbers(left), CoreNumbers(right);
    if a != b then (if CoreLess(b, a) then 1 else -1)
    else
      var p, q := After(left, '-'), After(right, '-');
      if p == "" || q == "" then
        if p == q then 0 else if p != "" then -1 else 1
      else CompareIdentifiers(Split(p, '.'), Split(q, '.'))
  }

  // ----- the accepted strings, by their form -----

  /** `0`, or digits of which the first is not `0`. */
  ghost predicate Numeral(s: string) {
    s == "0" || (s != "" && '1' <= s[0] <= '9' && forall c :: c in s ==> '0' <= c <= '9')
  }

  /** Letters, digits and hyphens, at least one; a numeral if there are only digits. */
  ghost predicate PrereleaseIdentifier(s: string) {
    && s != ""
    && (forall c :: c in s ==> '0' <= c <= '9' || 'A' <= c <= 'Z' || 'a' <= c <= 'z' || c == '-')
    && ((forall c :: c in s ==> '0' <= c <= '9') ==> Numeral(s))
  }

  function VersionText(major: string, minor: string, patch: string, pre: seq<string>): string {
    major + "." + minor + "." + patch + if pre == [] then "" else "-" + Join(pre, '.')
  }

  ghost predicate WellFormed(version: string, major: string, minor: string, patch: string, pre: seq<string>) {
    && version == VersionText(major, minor, patch, pre)
    && Numeral(major) && Numeral(minor) && Numeral(patch)
    && forall id :: id in pre ==> PrereleaseIdentifier(id)
  }

  lemma NumeralMeans(s: string)
    ensures Numeral(s) <==> Canonical(s)
    ensures Numeral(s) ==> '.' !in s && '-' !in s
  {
    if Canonical(s) {
      assert s[0] in s;
    }
  }

  lemma IdentifierMeans(s: string)
    ensures PrereleaseIdentifier(s) <==>
              && s != "" && (forall c :: c in s ==> IdentifierChar(c))
              && !(AllDigits(s) && |s| > 1 && s[0] == '0')
    ensures PrereleaseIdentifier(s) ==> '.' !in s
  {
    if s != "" {
      assert s[0] in s;
    }
  }

  /** Accepted are exactly three numerals, then optionally a hyphen and identifiers, all joined by dots. */
  lemma AcceptedVersions(version: string)
    ensures ValidSemver(version) <==> exists major, minor, patch, pre :: WellFormed(version, major, minor, patch, pre)
  {
    hide Split, Join, Before, After, Core, Prerelease, Numeral, Canonical, PrereleaseIdentifier;
    if ValidSemver(version) {
      var core, pre := Core(version), Prerelease(version);
      VersionParts(version);
      NumeralMeans(core[0]);
      NumeralMeans(core[1]);
      NumeralMeans(core[2]);
      forall id | id in pre
        ensures PrereleaseIdentifier(id)
      {
        IdentifierMeans(id);
      }
      assert WellFormed(version, core[0], core[1], core[2], pre);
    }
    if major, minor, patch, pre :| WellFormed(version, major, minor, patch, pre) {
      FormIsAccepted(version, major, minor, patch, pre);
    }
  }

  lemma VersionParts(version: string)
    requires |Core(version)| == 3
    ensures var core := Core(version); version == VersionText(core[0], core[1], core[2], Prerelease(version))
  {
    hide Split, Join, Before, After;
    var core := Core(version);
    JoinThree(core[0], core[1], core[2]);
    assert core == [core[0], core[1], core[2]];
    Partition(version, '-');
    JoinSplit(Before(version, '-'), '.');
    JoinSplit(After(version, '-'), '.');
  }

  lemma JoinThree(a: string, b: string, c: string)
    ensures Join([a, b, c], '.') == a + "." + b + "." + c
  {
    assert [a, b, c][1..] == [b, c] && [b, c][1..] == [c];
    assert Join([b, c], '.') == b + "." + c;
  }

  /** And such a string is read as its parts. */
  lemma FormIsAccepted(version: string, major: string, minor: string, patch: string, pre: seq<string>)
    requires WellFormed(version, major, minor, patch, pre)
    ensures ValidSemver(version) && Core(version) == [major, minor, patch] && Prerelease(version) == pre
    ensures AllDigits(major) && AllDigits(minor) && AllDigits(patch)
    ensures CoreNumbers(version) == (ToNat(major), ToNat(minor), ToNat(patch))
  {
    hide Split, Join, Before, After, Numeral, PrereleaseIdentifier, ToNat;
    var core := [major, minor, patch];
    NumeralMeans(major);
    NumeralMeans(minor);
    NumeralMeans(patch);
    JoinThree(major, minor, patch);
    SplitJoin(core, '.');
    forall id | id in pre
      ensures '.' !in id && id != "" && (forall c :: c in id ==> IdentifierChar(c))
      ensures !(AllDigits(id) && |id| > 1 && id[0] == '0')
    {
      IdentifierMeans(id);
    }
    var text := Join(core, '.');
    if pre == [] {
      assert version == text;
      Partition(version, '-');
    } else {
      SplitJoin(pre, '.');
      PartitionAt(text, Join(pre, '.'), '-');
      assert version == text + ['-'] + Join(pre, '.');
    }
  }

  // ----- precedence as the standard puts it -----

  datatype Identifier = Numeric(n: nat) | Alphanumeric(s: string)

  datatype Version = Version(core: (nat, nat, nat), pre: seq<Identifier>)

  function ParseIdentifier(id: string): Identifier {
    if AllDigits(id) then Numeric(ToNat(id)) else Alphanumeric(id)
  }

  function ParseVersion(version: string): Version
    requires MatchesPattern(version)
  {
    var ids := Prerelease(version);
    Version(CoreNumbers(version), seq(|ids|, i requires 0 <= i < |ids| => ParseIdentifier(ids[i])))
  }

  /** Section 11.4.1 to 11.4.3. */
  ghost predicate IdentifierPrecedes(a: Identifier, b: Identifier) {
    match (a, b)
    case (Numeric(m), Numeric(n)) => m < n
    case (Numeric(_), Alphanumeric(_)) => true
    case (Alphanumeric(_), Numeric(_)) => false
    case (Alphanumeric(s), Alphanumeric(t)) => Smaller(s, t)
  }

  /** Section 11.4: the first identifier that differs decides; else more identifiers win. */
  ghost predicate PrereleasePrecedes(p: seq<Identifier>, q: seq<Identifier>) {
    exists k :: 0 <= k <= |p| && k <= |q| && p[..k] == q[..k] && k < |q|
      && (k == |p| || IdentifierPrecedes(p[k], q[k]))
  }

  /** Section 11.2: major, minor and patch are compared numerically, up to the first difference. */
  ghost predicate CorePrecedes(a: (nat, nat, nat), b: (nat, nat, nat)) {
    var p, q := [a.0, a.1, a.2], [b.0, b.1, b.2];
    exists k :: 0 <= k < 3 && p[..k] == q[..k] && p[k] < q[k]
  }

  /** Sections 11.2 to 11.4: numbers first, a pre-release before its release. */
  ghost predicate Precedes(a: Version, b: Version) {
    CorePrecedes(a.core, b.core)
    || (a.core == b.core && a.pre != [] && (b.pre == [] || PrereleasePrecedes(a.pre, b.pre)))
  }

  // ----- what the precedence is like -----

  lemma IdentifierTotal(a: Identifier, b: Identifier)
    ensures IdentifierPrecedes(a, b) || a == b || IdentifierPrecedes(b, a)
    ensures !(IdentifierPrecedes(a, b) && IdentifierPrecedes(b, a)) && !IdentifierPrecedes(a, a)
  {
    hide Smaller;
    if a.Alphanumeric? {
      SmallerTotal(a.s, if b.Alphanumeric? then b.s else a.s);
    }
  }

  lemma IdentifierTransitive(a: Identifier, b: Identifier, c: Identifier)
    requires IdentifierPrecedes(a, b) && IdentifierPrecedes(b, c)
    ensures IdentifierPrecedes(a, c)
  {
    if a.Alphanumeric? && c.Alphanumeric? {
      SmallerTransitive(a.s, b.s, c.s);
    }
  }

  /** The comparison of number triples decides that order. */
  lemma CoreLessMeans(a: (nat, nat, nat), b: (nat, nat, nat))
    ensures CoreLess(a, b) <==> CorePrecedes(a, b)
  {
    var p, q := [a.0, a.1, a.2], [b.0, b.1, b.2];
    if CoreLess(a, b) {
      var k := if a.0 != b.0 then 0 else if a.1 != b.1 then 1 else 2;
      assert p[..k] == q[..k] && p[k] < q[k];
    }
    if CorePrecedes(a, b) {
      var k :| 0 <= k < 3 && p[..k] == q[..k] && p[k] < q[k];
      assert k > 0 ==> p[..k][0] == q[..k][0];
      assert k > 1 ==> p[..k][1] == q[..k][1];
    }
  }

  lemma PrereleaseTransitive(p: seq<Identifier>, q: seq<Identifier>, r: seq<Identifier>)
    requires PrereleasePrecedes(p, q) && PrereleasePrecedes(q, r)
    ensures PrereleasePrecedes(p, r)
  {
    var j :| 0 <= j <= |p| && j <= |q| && p[..j] == q[..j] && j < |q| && (j == |p| || IdentifierPrecedes(p[j], q[j]));
    var k :| 0 <= k <= |q| && k <= |r| && q[..k] == r[..k] && k < |r| && (k == |q| || IdentifierPrecedes(q[k], r[k]));
    var m := if j < k then j else k;
    assert p[..m] == p[..j][..m] == q[..j][..m] == q[..k][..m] == r[..k][..m] == r[..m];
    if j < k {
      assert q[..k][j] == r[..k][j];
    } else if k < j {
      assert p[..j][k] == q[..j][k];
    } else if j < |p| && j < |q| {
      IdentifierTransitive(p[j], q[j], r[j]);
    }
  }

  /** Precedence is transitive. */
  lemma PrecedesTransitive(a: Version, b: Version, c: Version)
    requires Precedes(a, b) && Precedes(b, c)
    ensures Precedes(a, c)
  {
    CoreLessMeans(a.core, b.core);
    CoreLessMeans(b.core, c.core);
    CoreLessMeans(a.core, c.core);
    if a.core == b.core == c.core && c.pre != [] {
      PrereleaseTransitive(a.pre, b.pre, c.pre);
    }
  }

  // ----- the comparison against the precedence -----

  function ParseIdentifiers(ids: seq<string>): seq<Identifier> {
    seq(|ids|, i requires 0 <= i < |ids| => ParseIdentifier(ids[i]))
  }

  predicate GoodIdentifier(id: string) {
    id != "" && !(AllDigits(id) && |id| > 1 && id[0] == '0')
  }

  /** Without leading zeros an identifier can be read back from its value. */
  lemma ParseIdentifierInjective(a: string, b: string)
    requires GoodIdentifier(a) && GoodIdentifier(b) && ParseIdentifier(a) == ParseIdentifier(b)
    ensures a == b
  {
    if AllDigits(a) {
      ToNatInjective(a, b);
    }
  }

  ghost predicate Agrees(order: int, less: bool, greater: bool) {
    order == if less then -1 else if greater then 1 else 0
  }

  lemma {:induction false} IdentifiersFollowPrecedence(left: seq<string>, right: seq<string>)
    requires forall id :: id in left || id in right ==> GoodIdentifier(id)
    ensures Agrees(CompareIdentifiers(left, right),
                   PrereleasePrecedes(ParseIdentifiers(left), ParseIdentifiers(right)),
                   PrereleasePrecedes(ParseIdentifiers(right), ParseIdentifiers(left)))
    ensures CompareIdentifiers(left, right) == 0 <==> left == right
  {
    hide PrereleasePrecedes, ToNat, Less, Smaller;
    var p, q := ParseIdentifiers(left), ParseIdentifiers(right);
    if left == [] || right == [] {
      FirstDecides(p, q, 0);
      FirstDecides(q, p, 0);
    } else if left[0] == right[0] {
      IdentifiersFollowPrecedence(left[1..], right[1..]);
      assert ParseIdentifiers(left[1..]) == p[1..] && ParseIdentifiers(right[1..]) == q[1..];
      TailDecides(p, q);
      TailDecides(q, p);
      assert left == [left[0]] + left[1..] && right == [right[0]] + right[1..];
    } else {
      if p[0] == q[0] {
        ParseIdentifierInjective(left[0], right[0]);
      }
      IdentifierTotal(p[0], q[0]);
      LessMeans(right[0], left[0]);
      FirstDecides(p, q, 0);
      FirstDecides(q, p, 0);
    }
  }

  /** Once a position differs, or one side ends there, it decides. */
  lemma FirstDecides(p: seq<Identifier>, q: seq<Identifier>, k: nat)
    requires k <= |p| && k <= |q| && p[..k] == q[..k]
    requires k == |p| || k == |q| || p[k] != q[k]
    ensures PrereleasePrecedes(p, q) <==> k < |q| && (k == |p| || IdentifierPrecedes(p[k], q[k]))
  {
    if PrereleasePrecedes(p, q) {
      var j :| 0 <= j <= |p| && j <= |q| && p[..j] == q[..j] && j < |q| && (j == |p| || IdentifierPrecedes(p[j], q[j]));
      if j < k {
        assert p[..k][j] == q[..k][j];
        IdentifierTotal(p[j], q[j]);
      }
    }
  }

  lemma TailDecides(p: seq<Identifier>, q: seq<Identifier>)
    requires p != [] && q != [] && p[0] == q[0]
    ensures PrereleasePrecedes(p, q) <==> PrereleasePrecedes(p[1..], q[1..])
  {
    var t, u := p[1..], q[1..];
    if PrereleasePrecedes(p, q) {
      var j :| 0 <= j <= |p| && j <= |q| && p[..j] == q[..j] && j < |q| && (j == |p| || IdentifierPrecedes(p[j], q[j]));
      IdentifierTotal(p[0], q[0]);
      assert j > 0;
      assert t[..j - 1] == p[..j][1..] == q[..j][1..] == u[..j - 1];
    }
    if PrereleasePrecedes(t, u) {
      var j :| 0 <= j <= |t| && j <= |u| && t[..j] == u[..j] && j < |u| && (j == |t| || IdentifierPrecedes(t[j], u[j]));
      assert p[..j + 1] == [p[0]] + t[..j] && q[..j + 1] == [q[0]] + u[..j];
    }
  }

  /**
   On accepted versions the comparison is exactly the precedence of section 11,
   and versions of equal precedence are the same string.
   */
  lemma CompareFollowsPrecedence(left: string, right: string)
    requires ValidSemver(left) && ValidSemver(right)
    ensures Agrees(CompareSemver(left, right),
                   Precedes(ParseVersion(left), ParseVersion(right)), Precedes(ParseVersion(right), ParseVersion(left)))
    ensures CompareSemver(left, right) == 0 <==> left == right
  {
    var l, r := Prerelease(left), Prerelease(right);
    PrereleasePart(left);
    PrereleasePart(right);
    CoreLessMeans(CoreNumbers(left), CoreNumbers(right));
    CoreLessMeans(CoreNumbers(right), CoreNumbers(left));
    IdentifiersFollowPrecedence(l, r);
    assert ParseVersion(left).pre == ParseIdentifiers(l) && ParseVersion(right).pre == ParseIdentifiers(r);
    if CompareSemver(left, right) == 0 {
      SameParts(left, right);
    }
  }

  /** A pre-release part is present exactly when it is not empty. */
  lemma PrereleasePart(version: string)
    requires ValidSemver(version)
    ensures After(version, '-') == "" <==> Prerelease(version) == []
    ensures forall id :: id in Prerelease(version) ==> GoodIdentifier(id)
  {
    Partition(version, '-');
    assert Split("", '.') == [""];
    assert '-' in version && After(version, '-') == "" ==> "" in Prerelease(version);
  }

  lemma SameParts(left: string, right: string)
    requires MatchesPattern(left) && MatchesPattern(right)
    requires CoreNumbers(left) == CoreNumbers(right) && Prerelease(left) == Prerelease(right)
    ensures left == right
  {
    hide MatchesPattern, CoreNumbers, Prerelease, Split, Before, After;
    SameCore(left, right);
    SplitInjective(Before(left, '-'), Before(right, '-'), '.');
    SamePrerelease(left, right);
    Partition(left, '-');
    Partition(right, '-');
  }

  lemma SameCore(left: string, right: string)
    requires MatchesPattern(left) && MatchesPattern(right) && CoreNumbers(left) == CoreNumbers(right)
    ensures Core(left) == Core(right)
  {
    hide Split, Before, ToNat;
    var c, d := Core(left), Core(right);
    forall i | 0 <= i < 3
      ensures c[i] == d[i]
    {
      assert c[i] in c && d[i] in d && c[0] in c && c[1] in c && d[0] in d && d[1] in d;
      ToNatInjective(c[i], d[i]);
    }
  }

  lemma SamePrerelease(left: string, right: string)
    requires Prerelease(left) == Prerelease(right)
    ensures '-' in left <==> '-' in right
    ensures '-' in left ==> After(left, '-') == After(right, '-')
  {
    if '-' in left {
      SplitInjective(After(left, '-'), After(right, '-'), '.');
    }
  }

  /** The comparison is antisymmetric on accepted versions. */
  lemma CompareAntisymmetric(left: string, right: string)
    requires ValidSemver(left) && ValidSemver(right)
    ensures CompareSemver(left, right) == -CompareSemver(right, left)
  {
    CompareFollowsPrecedence(left, right);
    CompareFollowsPrecedence(right, left);
    if CompareSemver(left, right) != 0 && CompareSemver(left, right) == CompareSemver(right, left) {
      var a, b := ParseVersion(left), ParseVersion(right);
      PrecedesTransitive(a, b, a);
      CompareFollowsPrecedence(left, left);
    }
  }

  /** The comparison is transitive on accepted versions. */
  lemma CompareTransitive(a: string, b: string, c: string)
    requires ValidSemver(a) && ValidSemver(b) && ValidSemver(c)
    requires CompareSemver(a, b) < 0 && CompareSemver(b, c) < 0
    ensures CompareSemver(a, c) < 0
  {
    CompareFollowsPrecedence(a, b);
    CompareFollowsPrecedence(b, c);
    CompareFollowsPrecedence(a, c);
    PrecedesTransitive(ParseVersion(a), ParseVersion(b), ParseVersion(c));
  }

  /** Why leading zeros are refused: `01` and `1` would each come before the other. */
  lemma LeadingZerosBreakTheOrder()
    ensures CompareIdentifiers(["01"], ["1"]) == -1 == CompareIdentifiers(["1"], ["01"])
  {
    assert ToNat("1") == 1;
    assert "01"[..1] == "0";
    assert ToNat("0") == 0;
    assert ToNat("01") == 1;
  }
}
