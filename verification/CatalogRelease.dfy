/** Release channels: one upgrade path of ever newer versions, and how a release extends it. */
module CatalogRelease {
  import opened Wrappers
  import opened Text
  import opened SemVer
  import opened CatalogChannel
  import opened CatalogBundles

  /** The version of an entry name: the name without the package prefix. */
  function VersionOf(name: string): string {
    if StartsWith(name, PACKAGE_NAME + ".") then name[|PACKAGE_NAME| + 1..] else name
  }

  predicate ValidEntryName(name: string) {
    StartsWith(name, PACKAGE_NAME + ".") && ValidSemver(VersionOf(name))
  }

  predicate ValidEntryVersions(entries: seq<Entry>) {
    forall e :: e in entries ==> ValidEntryName(e.name)
  }

  lemma VersionOfBundle(version: string)
    ensures VersionOf(BundleName(version)) == version
    ensures ValidSemver(version) ==> ValidEntryName(BundleName(version))
  {
    var name := BundleName(version);
    assert name == (PACKAGE_NAME + ".") + version;
    assert name[..|PACKAGE_NAME| + 1] == PACKAGE_NAME + "." && name[|PACKAGE_NAME| + 1..] == version;
  }

  lemma {:induction false} HeadIsEntry(c: Channel)
    ensures Head(c).Success? && Head(c).value.Some? ==> Head(c).value.value in c.entries
  {
    HeadsAreEntries(c.entries, ReplacedNames(c.entries) + SkippedNames(c.entries));
  }

  lemma {:induction false} HeadsAreEntries(some: seq<Entry>, superseded: set<string>)
    ensures forall e :: e in Heads(some, superseded) ==> e in some
  {
    if some != [] {
      HeadsAreEntries(some[1..], superseded);
    }
  }

  // ----- the channel part of the two release commands -----

  /** The channel with the release on top, or why it is refused. */
  function Promoted(c: Channel, version: string): Result<Channel, CatalogError>
    requires ValidSemver(version)
  {
    HeadIsEntry(c);
    if exists e :: e in c.entries && e.name == BundleName(version) then Failure(AlreadyInChannel)
    else if !ValidEntryVersions(c.entries) then Failure(InvalidEntry)
    else if Head(c).Failure? then Failure(Head(c).error)
    else if Head(c).value.None? then Success(c.(entries := c.entries + [Entry(BundleName(version), None, [])]))
    else
      var head := Head(c).value.value.name;
      if CompareSemver(version, VersionOf(head)) <= 0 then Failure(NotNewer)
      else Success(c.(entries := c.entries + [Entry(BundleName(version), Some(head), [])]))
  }

  /** The major and minor number of a version. */
  function ReleaseMinor(version: string): string
    requires MatchesPattern(version)
  {
    Core(version)[0] + "." + Core(version)[1]
  }

  /** The channel with the bugfix release on top, none when its head is on another minor line. */
  function Backported(c: Channel, version: string): Result<Option<Channel>, CatalogError>
    requires ValidSemver(version)
  {
    HeadIsEntry(c);
    if c.entries == [] then Success(None)
    else if !ValidEntryVersions(c.entries) then Failure(InvalidEntry)
    else if Head(c).Failure? then Failure(Head(c).error)
    else if Head(c).value.None? then Success(None)
    else
      var head := Head(c).value.value.name;
      if ReleaseMinor(VersionOf(head)) != ReleaseMinor(version) then Success(None)
      else if CompareSemver(version, VersionOf(head)) <= 0 then Failure(NotNewer)
      else Success(Some(c.(entries := c.entries + [Entry(BundleName(version), Some(head), [])])))
  }

  // ----- what is accepted, and what comes of it -----

  /** Texts `major.minor` are the same exactly when the numbers are. */
  lemma ReleaseMinorMeans(a: string, b: string)
    requires MatchesPattern(a) && MatchesPattern(b)
    ensures ReleaseMinor(a) == ReleaseMinor(b) <==> SameMinor(a, b)
  {
    hide Split, Before, ToNat;
    var c, d := Core(a), Core(b);
    assert c[0] in c && c[1] in c && d[0] in d && d[1] in d;
    if ReleaseMinor(a) == ReleaseMinor(b) {
      SplitOnce(c[0], c[1], '.');
      SplitOnce(d[0], d[1], '.');
      SplitNone(c[1], '.');
      SplitNone(d[1], '.');
      assert [c[0]] + [c[1]] == [d[0]] + [d[1]];
      assert c[0] == ([c[0]] + [c[1]])[0] && c[1] == ([c[0]] + [c[1]])[1];
    }
    if SameMinor(a, b) {
      ToNatInjective(c[0], d[0]);
      ToNatInjective(c[1], d[1]);
    }
  }

  /** Names of entries are those of bundles of accepted versions. */
  lemma ValidEntryNameMeans(name: string)
    ensures ValidEntryName(name) <==> exists version :: ValidSemver(version) && name == "neteye-operator." + version
  {
    hide ValidSemver;
    if ValidEntryName(name) {
      assert name == PACKAGE_NAME + "." + VersionOf(name);
    }
    if version :| ValidSemver(version) && name == "neteye-operator." + version {
      VersionOfBundle(version);
    }
  }

  /** `longer` has one more entry, for `version`; it replaces the only head of before, if there was an entry. */
  ghost predicate OnTop(entries: seq<Entry>, version: string, longer: seq<Entry>) {
    if entries == [] then longer == [Entry("neteye-operator." + version, None, [])]
    else
      exists i: nat ::
        OnlyHead(entries, i) && longer == entries + [Entry("neteye-operator." + version, Some(entries[i].name), [])]
  }

  /** There is one head, and `version` is newer. */
  ghost predicate NewerThanHead(entries: seq<Entry>, version: string)
    requires ValidSemver(version) && ValidEntryVersions(entries)
  {
    exists i: nat :: OnlyHead(entries, i) && CompareSemver(version, VersionOf(entries[i].name)) > 0
  }

  /** There is one head, and `version` is on its minor line. */
  ghost predicate OnLineOfHead(entries: seq<Entry>, version: string)
    requires ValidSemver(version) && ValidEntryVersions(entries)
  {
    exists i: nat :: OnlyHead(entries, i) && SameMinor(VersionOf(entries[i].name), version)
  }

  /** There is one head, on another minor line than `version`. */
  ghost predicate OffLineOfHead(entries: seq<Entry>, version: string)
    requires ValidSemver(version) && ValidEntryVersions(entries)
  {
    exists i: nat :: OnlyHead(entries, i) && !SameMinor(VersionOf(entries[i].name), version)
  }

  /** With one head these are questions about that entry. */
  lemma HeadDecides(entries: seq<Entry>, version: string, i: nat)
    requires ValidSemver(version) && ValidEntryVersions(entries) && OnlyHead(entries, i)
    ensures i < |entries| && entries[i] in entries && ValidSemver(VersionOf(entries[i].name))
    ensures NewerThanHead(entries, version) <==> CompareSemver(version, VersionOf(entries[i].name)) > 0
    ensures OnLineOfHead(entries, version) <==> SameMinor(VersionOf(entries[i].name), version)
    ensures OffLineOfHead(entries, version) <==> !SameMinor(VersionOf(entries[i].name), version)
  {
    hide MatchesPattern, CompareSemver, SameMinor, VersionOf, OnlyHead;
    HeadIsThere(entries, i);
    forall j: nat | OnlyHead(entries, j)
      ensures j == i
    {
      HeadIsUnique(entries, i, j);
    }
  }

  lemma HeadIsThere(entries: seq<Entry>, i: nat)
    requires OnlyHead(entries, i)
    ensures i < |entries| && entries[i] in entries
  {
  }

  lemma HeadIsUnique(entries: seq<Entry>, i: nat, j: nat)
    requires OnlyHead(entries, i) && OnlyHead(entries, j)
    ensures i == j
  {
    hide ReplacedNames, SkippedNames;
    assert entries[j].name !in ReplacedNames(entries) + SkippedNames(entries);
  }

  /** Without a single head none of them holds. */
  lemma NoHeadDecides(entries: seq<Entry>, version: string)
    requires ValidSemver(version) && ValidEntryVersions(entries) && forall i: nat :: !OnlyHead(entries, i)
    ensures !NewerThanHead(entries, version) && !OnLineOfHead(entries, version) && !OffLineOfHead(entries, version)
  {
    hide OnlyHead, MatchesPattern, CompareSemver, SameMinor, VersionOf;
  }

  /**
   Any channel at all takes a release exactly when its entries are accepted versions other
   than this one, and it is empty or has one head, which is older. The release goes on top.
   */
  lemma PromotedExactly(c: Channel, version: string)
    requires ValidSemver(version)
    ensures Promoted(c, version).Success? <==>
              && (forall e :: e in c.entries ==> e.name != "neteye-operator." + version)
              && ValidEntryVersions(c.entries) && (c.entries == [] || NewerThanHead(c.entries, version))
    ensures Promoted(c, version).Success? ==>
              var longer := Promoted(c, version).value;
              longer == c.(entries := longer.entries) && OnTop(c.entries, version, longer.entries)
  {
    hide BundleName, ValidSemver, OnlyHead, Head, Promoted, NewerThanHead, CompareSemver, ValidEntryVersions, VersionOf;
    HeadMeans(c);
    BundleNameIs(version);
    if !NewTo(c, version) || !ValidEntryVersions(c.entries) {
      PromotedElse(c, version);
    } else if i: nat :| OnlyHead(c.entries, i) {
      HeadDecides(c.entries, version, i);
      PromotedAt(c, version, i);
    } else {
      NoHeadDecides(c.entries, version);
      PromotedElse(c, version);
    }
  }

  predicate NewTo(c: Channel, version: string) {
    forall e :: e in c.entries ==> e.name != BundleName(version)
  }

  /** With one head the release goes on top of it, unless it is not newer. */
  lemma PromotedAt(c: Channel, version: string, i: nat)
    requires ValidSemver(version) && ValidEntryVersions(c.entries) && OnlyHead(c.entries, i) && NewTo(c, version)
    requires i < |c.entries| && ValidSemver(VersionOf(c.entries[i].name))
    ensures var head := c.entries[i].name;
            Promoted(c, version) ==
            if CompareSemver(version, VersionOf(head)) <= 0 then Failure(NotNewer)
            else Success(c.(entries := c.entries + [Entry(BundleName(version), Some(head), [])]))
  {
    hide BundleName, OnlyHead, Head, MatchesPattern, CompareSemver, VersionOf, ValidEntryVersions, ValidEntryName,
         StartsWith;
    OnlyHeadIsHead(c, i);
  }

  lemma PromotedElse(c: Channel, version: string)
    requires ValidSemver(version)
    requires !NewTo(c, version) || !ValidEntryVersions(c.entries) || !(Head(c).Success? && Head(c).value.Some?)
    ensures NewTo(c, version) && ValidEntryVersions(c.entries) && Head(c) == Success(None) ==>
              Promoted(c, version) ==
              Success(c.(entries := c.entries + [Entry(BundleName(version), None, [])]))
    ensures !NewTo(c, version) || !ValidEntryVersions(c.entries) || Head(c) != Success(None) ==>
              Promoted(c, version).Failure?
  {
    hide BundleName, Head, MatchesPattern, CompareSemver, VersionOf, ValidEntryVersions, ValidEntryName, StartsWith;
  }

  /**
   A bugfix release leaves alone exactly the channels that are empty or have one head, on
   another minor line, and goes on top of exactly those whose one head is older and on the
   same line; all others refuse it.
   */
  lemma BackportedExactly(c: Channel, version: string)
    requires ValidSemver(version)
    ensures Backported(c, version) == Success(None) <==>
              c.entries == [] || (ValidEntryVersions(c.entries) && OffLineOfHead(c.entries, version))
    ensures Backported(c, version).Success? && Backported(c, version).value.Some? <==>
              && ValidEntryVersions(c.entries)
              && OnLineOfHead(c.entries, version) && NewerThanHead(c.entries, version)
    ensures Backported(c, version).Success? && Backported(c, version).value.Some? ==>
              var longer := Backported(c, version).value.value;
              longer == c.(entries := longer.entries) && OnTop(c.entries, version, longer.entries)
  {
    hide BundleName, ValidSemver, OnlyHead, Head, Backported, NewerThanHead, OnLineOfHead, OffLineOfHead,
         CompareSemver, SameMinor, ValidEntryName, VersionOf;
    HeadMeans(c);
    BundleNameIs(version);
    if !ValidEntryVersions(c.entries) {
      BackportedElse(c, version);
    } else if i: nat :| OnlyHead(c.entries, i) {
      HeadDecides(c.entries, version, i);
      BackportedAt(c, version, i);
    } else {
      NoHeadDecides(c.entries, version);
      BackportedElse(c, version);
    }
  }

  lemma BundleNameIs(version: string)
    ensures BundleName(version) == "neteye-operator." + version
  {
  }

  /** With one head on the line the bugfix release goes on top of it, unless it is not newer. */
  lemma BackportedAt(c: Channel, version: string, i: nat)
    requires ValidSemver(version) && ValidEntryVersions(c.entries) && OnlyHead(c.entries, i)
    requires i < |c.entries| && ValidSemver(VersionOf(c.entries[i].name))
    ensures var head := c.entries[i].name;
            Backported(c, version) ==
            if !SameMinor(VersionOf(head), version) then Success(None)
            else if CompareSemver(version, VersionOf(head)) <= 0 then Failure(NotNewer)
            else Success(Some(c.(entries := c.entries + [Entry(BundleName(version), Some(head), [])])))
  {
    hide BundleName, OnlyHead, Head, MatchesPattern, CompareSemver, SameMinor, ReleaseMinor, VersionOf,
         ValidEntryVersions, ValidEntryName, StartsWith, Prerelease, AllDigits;
    OnlyHeadIsHead(c, i);
    ReleaseMinorMeans(VersionOf(c.entries[i].name), version);
  }

  lemma BackportedElse(c: Channel, version: string)
    requires ValidSemver(version) && (!ValidEntryVersions(c.entries) || !(Head(c).Success? && Head(c).value.Some?))
    ensures c.entries == [] ==> Backported(c, version) == Success(None)
    ensures c.entries != [] && Head(c) != Success(None) ==> Backported(c, version).Failure?
    ensures !ValidEntryVersions(c.entries) ==> c.entries != [] && Backported(c, version).Failure?
  {
    hide Head, MatchesPattern, CompareSemver, SameMinor, ReleaseMinor, VersionOf, ValidEntryName;
  }

  // ----- the shape of a release channel -----

  function NameBefore(entries: seq<Entry>, i: nat): Option<string>
    requires i <= |entries|
  {
    if i == 0 then None else Some(entries[i - 1].name)
  }

  /** Each entry replaces the one before it, which is older; nothing is skipped. */
  ghost predicate ReleasePath(entries: seq<Entry>) {
    && entries != [] && ValidEntryVersions(entries)
    && (forall i :: 0 <= i < |entries| ==>
          entries[i].skips == [] && entries[i].predecessor == NameBefore(entries, i))
    && (forall i, j :: 0 <= i && j == i + 1 < |entries| ==> Older(entries[i], entries[j]))
  }

  /** Both are releases of the package, the first of a smaller version. */
  ghost predicate Older(a: Entry, b: Entry) {
    && ValidEntryName(a.name) && ValidEntryName(b.name)
    && CompareSemver(VersionOf(a.name), VersionOf(b.name)) < 0
  }

  lemma OlderTransitive(a: Entry, b: Entry, c: Entry)
    requires Older(a, b) && Older(b, c)
    ensures Older(a, c)
  {
    CompareTransitive(VersionOf(a.name), VersionOf(b.name), VersionOf(c.name));
  }

  lemma NextIsOlder(entries: seq<Entry>, i: nat)
    requires ReleasePath(entries) && i + 1 < |entries|
    ensures Older(entries[i], entries[i + 1])
  {
    hide ValidEntryName, NameBefore;
    assert Older(entries[i], entries[i + 1]);
  }

  /** Versions grow strictly along the whole path, not only from one entry to the next. */
  lemma {:induction false} VersionsGrow(entries: seq<Entry>, i: nat, j: nat)
    requires ReleasePath(entries) && i < j < |entries|
    ensures Older(entries[i], entries[j])
    decreases j
  {
    hide ReleasePath, Older;
    NextIsOlder(entries, j - 1);
    if i < j - 1 {
      VersionsGrow(entries, i, j - 1);
      OlderTransitive(entries[i], entries[j - 1], entries[j]);
    }
  }

  /** So no name occurs twice. */
  lemma NamesDiffer(entries: seq<Entry>)
    requires ReleasePath(entries)
    ensures forall i, j :: 0 <= i < j < |entries| ==> entries[i].name != entries[j].name
  {
    forall i, j | 0 <= i < j < |entries|
      ensures entries[i].name != entries[j].name
    {
      VersionsGrow(entries, i, j);
      CompareFollowsPrecedence(VersionOf(entries[i].name), VersionOf(entries[j].name));
    }
  }

  /** The newest entry is the only head. */
  lemma NewestIsOnlyHead(entries: seq<Entry>)
    requires ReleasePath(entries)
    ensures OnlyHead(entries, |entries| - 1)
  {
    hide ValidSemver, MatchesPattern, CompareSemver, VersionOf, StartsWith, BundleName, ReleaseMinor, Older,
         ValidEntryName;
    NamesDiffer(entries);
    assert SkippedNames(entries) == {};
    forall k | 0 <= k < |entries|
      ensures k != |entries| - 1 <==> entries[k].name in ReplacedNames(entries)
    {
      assert entries[k] in entries;
      EntryNameIsToken(entries[k].name);
      if k < |entries| - 1 {
        assert entries[k + 1] in entries && entries[k + 1].predecessor == Some(entries[k].name);
      } else {
        NewestIsNotReplaced(entries);
      }
    }
  }

  lemma NewestIsNotReplaced(entries: seq<Entry>)
    requires ReleasePath(entries)
    requires forall i, j :: 0 <= i < j < |entries| ==> entries[i].name != entries[j].name
    ensures entries[|entries| - 1].name !in ReplacedNames(entries)
  {
    forall e | e in entries
      ensures e.predecessor != Some(entries[|entries| - 1].name)
    {
      var i :| 0 <= i < |entries| && entries[i] == e;
      assert entries[i].predecessor == NameBefore(entries, i);
    }
  }

  /** The entry with a given name. */
  function Lookup(entries: seq<Entry>, name: string): Option<Entry> {
    if entries == [] then None
    else if entries[0].name == name then Some(entries[0])
    else Lookup(entries[1..], name)
  }

  /** The names met by following at most `steps` replaces edges from `name`. */
  function UpgradePath(entries: seq<Entry>, name: string, steps: nat): seq<string>
    decreases steps
  {
    var e := Lookup(entries, name);
    if e.None? then []
    else if steps == 0 || e.value.predecessor.None? then [name]
    else [name] + UpgradePath(entries, e.value.predecessor.value, steps - 1)
  }

  /** The names of the first k + 1 entries, newest first. */
  function NamesDown(entries: seq<Entry>, k: nat): seq<string>
    requires k < |entries|
  {
    [entries[k].name] + if k == 0 then [] else NamesDown(entries, k - 1)
  }

  lemma {:induction false} LookupFinds(entries: seq<Entry>, k: nat)
    requires k < |entries| && forall i, j :: 0 <= i < j < |entries| ==> entries[i].name != entries[j].name
    ensures Lookup(entries, entries[k].name) == Some(entries[k])
  {
    if k > 0 {
      LookupFinds(entries[1..], k - 1);
    }
  }

  lemma PathEdge(entries: seq<Entry>, k: nat)
    requires ReleasePath(entries) && k < |entries|
    ensures entries[k].predecessor == if k == 0 then None else Some(entries[k - 1].name)
  {
    assert entries[k].predecessor == NameBefore(entries, k);
  }

  /**
   The replaces edges form one path through the whole channel: following them from
   the k-th entry meets that entry and every earlier one, newest first.
   */
  lemma {:induction false} PathMeetsAll(entries: seq<Entry>, k: nat, steps: nat)
    requires ReleasePath(entries) && k < |entries| && steps >= k
    ensures UpgradePath(entries, entries[k].name, steps) == NamesDown(entries, k)
    decreases k
  {
    hide ReleasePath, Lookup;
    NamesDiffer(entries);
    LookupFinds(entries, k);
    PathEdge(entries, k);
    if k > 0 {
      PathMeetsAll(entries, k - 1, steps - 1);
    }
  }

  // ----- what the commands do to that shape -----

  lemma NewEntryIsNewer(newest: Entry, version: string)
    requires ValidEntryName(newest.name) && ValidSemver(version)
    requires CompareSemver(VersionOf(newest.name), version) < 0
    ensures Older(newest, Entry(BundleName(version), Some(newest.name), []))
  {
    hide ValidSemver, CompareSemver, VersionOf, BundleName, StartsWith;
    VersionOfBundle(version);
  }

  lemma PathExtends(entries: seq<Entry>, version: string)
    requires ReleasePath(entries) && ValidSemver(version)
    requires ValidSemver(VersionOf(entries[|entries| - 1].name))
    requires CompareSemver(VersionOf(entries[|entries| - 1].name), version) < 0
    ensures ReleasePath(entries + [Entry(BundleName(version), Some(entries[|entries| - 1].name), [])])
  {
    hide ValidSemver, MatchesPattern, CompareSemver, VersionOf, StartsWith, BundleName, Older;
    var newest := entries[|entries| - 1];
    assert newest in entries;
    VersionOfBundle(version);
    NewEntryIsNewer(newest, version);
    PathExtendsBy(entries, Entry(BundleName(version), Some(newest.name), []));
  }

  lemma NameBeforeKept(entries: seq<Entry>, last: Entry, i: nat)
    requires entries != [] && i <= |entries|
    ensures NameBefore(entries + [last], i)
            == if i == |entries| then Some(entries[|entries| - 1].name) else NameBefore(entries, i)
  {
  }

  lemma PathExtendsBy(entries: seq<Entry>, last: Entry)
    requires ReleasePath(entries) && ValidEntryName(last.name) && Older(entries[|entries| - 1], last)
    requires last.predecessor == Some(entries[|entries| - 1].name) && last.skips == []
    ensures ReleasePath(entries + [last])
  {
    hide ValidEntryName, Older, NameBefore;
    var longer := entries + [last];
    forall i | 0 <= i < |longer|
      ensures longer[i].skips == [] && longer[i].predecessor == NameBefore(longer, i)
    {
      NameBeforeKept(entries, last, i);
      assert i < |entries| ==> longer[i] == entries[i];
    }
    forall i, j | 0 <= i && j == i + 1 < |longer|
      ensures Older(longer[i], longer[j])
    {
      assert j < |entries| ==> longer[i] == entries[i] && longer[j] == entries[j];
    }
  }

  lemma PathHead(c: Channel)
    requires ReleasePath(c.entries)
    ensures Head(c) == Success(Some(c.entries[|c.entries| - 1]))
    ensures ValidEntryVersions(c.entries) && ValidSemver(VersionOf(c.entries[|c.entries| - 1].name))
  {
    NewestIsOnlyHead(c.entries);
    OnlyHeadIsHead(c, |c.entries| - 1);
    assert c.entries[|c.entries| - 1] in c.entries;
  }

  lemma PathStarts(version: string)
    requires ValidSemver(version)
    ensures ReleasePath([Entry(BundleName(version), None, [])])
  {
    VersionOfBundle(version);
  }

  lemma EmptyHasNoHead(c: Channel)
    requires c.entries == []
    ensures Head(c) == Success(None)
  {
  }

  lemma PromotedOnTop(c: Channel, version: string, longer: Channel)
    requires ValidSemver(version) && Promoted(c, version) == Success(longer)
    requires c.entries != [] && Head(c) == Success(Some(c.entries[|c.entries| - 1]))
    ensures var head := c.entries[|c.entries| - 1].name;
            && longer == c.(entries := c.entries + [Entry(BundleName(version), Some(head), [])])
            && ValidSemver(VersionOf(head)) && CompareSemver(version, VersionOf(head)) > 0
  {
    hide Head, CompareSemver, MatchesPattern, BundleName, VersionOf;
    assert c.entries[|c.entries| - 1] in c.entries;
  }

  lemma PromotedFirst(c: Channel, version: string, longer: Channel)
    requires ValidSemver(version) && Promoted(c, version) == Success(longer) && c.entries == []
    ensures longer == c.(entries := [Entry(BundleName(version), None, [])])
  {
    hide MatchesPattern, BundleName, VersionOf, CompareSemver;
    EmptyHasNoHead(c);
  }

  /** Promoting a release keeps the shape, and starts it on an empty channel. */
  lemma PromotedKeepsPath(c: Channel, version: string, longer: Channel)
    requires ValidSemver(version) && (c.entries == [] || ReleasePath(c.entries))
    requires Promoted(c, version) == Success(longer)
    ensures ReleasePath(longer.entries) && longer == c.(entries := longer.entries)
    ensures |longer.entries| == |c.entries| + 1 && c.entries == longer.entries[..|c.entries|]
    ensures longer.entries[|c.entries|].name == BundleName(version)
  {
    hide ValidSemver, CompareSemver, VersionOf, BundleName, Head, Promoted, ReleasePath;
    if c.entries == [] {
      PromotedFirst(c, version, longer);
      PathStarts(version);
    } else {
      PathHead(c);
      PromotedOnTop(c, version, longer);
      CompareAntisymmetric(version, VersionOf(c.entries[|c.entries| - 1].name));
      PathExtends(c.entries, version);
    }
  }

  lemma BackportedOnTop(c: Channel, version: string, longer: Channel)
    requires ValidSemver(version) && Backported(c, version) == Success(Some(longer))
    requires c.entries != [] && Head(c) == Success(Some(c.entries[|c.entries| - 1]))
    ensures var head := c.entries[|c.entries| - 1].name;
            && longer == c.(entries := c.entries + [Entry(BundleName(version), Some(head), [])])
            && ValidSemver(VersionOf(head)) && CompareSemver(version, VersionOf(head)) > 0
  {
    hide Head, ReleaseMinor, CompareSemver, MatchesPattern, BundleName, VersionOf;
    assert c.entries[|c.entries| - 1] in c.entries;
  }

  /** So does a backport. */
  lemma BackportedKeepsPath(c: Channel, version: string, longer: Channel)
    requires ValidSemver(version) && ReleasePath(c.entries)
    requires Backported(c, version) == Success(Some(longer))
    ensures ReleasePath(longer.entries) && longer == c.(entries := longer.entries)
    ensures |longer.entries| == |c.entries| + 1 && c.entries == longer.entries[..|c.entries|]
    ensures longer.entries[|c.entries|].name == BundleName(version)
  {
    hide ValidSemver, CompareSemver, VersionOf, BundleName, Head, Backported, ReleasePath;
    PathNotEmpty(c.entries);
    PathHead(c);
    BackportedOnTop(c, version, longer);
    CompareAntisymmetric(version, VersionOf(c.entries[|c.entries| - 1].name));
    PathExtends(c.entries, version);
  }

  lemma PathNotEmpty(entries: seq<Entry>)
    requires ReleasePath(entries)
    ensures entries != []
  {
  }

  /** A channel refuses exactly the releases that are not newer than its newest entry; no duplicate is newer. */
  lemma PromotedExactlyWhenNewer(c: Channel, version: string, newest: string)
    requires ValidSemver(version) && ReleasePath(c.entries) && NewestVersion(c.entries, newest)
    ensures Promoted(c, version).Success? <==> CompareSemver(version, newest) > 0
  {
    hide MatchesPattern, CompareSemver, VersionOf, StartsWith, BundleName, OnlyHead, Head, ReleasePath,
         ValidEntryVersions;
    PathHead(c);
    if CompareSemver(version, newest) > 0 {
      NewerIsNoDuplicate(c.entries, version, newest);
    }
  }

  /** The version of the last entry. */
  ghost predicate NewestVersion(entries: seq<Entry>, newest: string) {
    entries != [] && ValidSemver(newest) && newest == VersionOf(entries[|entries| - 1].name)
  }

  lemma NewerIsNoDuplicate(entries: seq<Entry>, version: string, newest: string)
    requires ValidSemver(version) && ReleasePath(entries) && NewestVersion(entries, newest)
             && CompareSemver(version, newest) > 0
    ensures forall e :: e in entries ==> e.name != BundleName(version)
  {
    hide ValidSemver, MatchesPattern, CompareSemver, VersionOf, StartsWith, BundleName, ReleasePath, Older;
    forall e | e in entries
      ensures e.name != BundleName(version)
    {
      var i :| 0 <= i < |entries| && entries[i] == e;
      VersionOfBundle(version);
      CompareAntisymmetric(version, newest);
      CompareFollowsPrecedence(version, newest);
      if i < |entries| - 1 {
        VersionsGrow(entries, i, |entries| - 1);
        OlderMeans(e, entries[|entries| - 1]);
      }
    }
  }

  lemma OlderMeans(a: Entry, b: Entry)
    requires Older(a, b)
    ensures ValidSemver(VersionOf(a.name)) && ValidSemver(VersionOf(b.name))
            && CompareSemver(VersionOf(a.name), VersionOf(b.name)) < 0
  {
  }

  /** An example of a release path. */
  lemma AReleasePath()
    ensures ReleasePath([Entry(BundleName("1.0.0"), None, [])])
  {
    hide ValidSemver, ReleasePath;
    AVersion();
    PathStarts("1.0.0");
  }

  lemma AVersion()
    ensures ValidSemver("1.0.0")
  {
    hide Before, Split, After;
    var version := "1.0.0";
    Partition(version, '-');
    assert '-' !in version;
    OneAndZeros();
    SplitJoin(["1", "0", "0"], '.');
    assert Core(version) == ["1", "0", "0"];
  }

  lemma OneAndZeros()
    ensures Join(["1", "0", "0"], '.') == "1.0.0"
  {
    assert ["1", "0", "0"][1..] == ["0", "0"] && ["0", "0"][1..] == ["0"];
  }

  /** The check for duplicates a backport does not make cannot fail: growth implies it. */
  lemma BackportIsNoDuplicate(c: Channel, version: string, longer: Channel)
    requires ValidSemver(version) && ReleasePath(c.entries)
    requires Backported(c, version) == Success(Some(longer))
    ensures forall e :: e in c.entries ==> e.name != BundleName(version)
  {
    hide ValidSemver, Backported, BundleName, ReleasePath;
    BackportedKeepsPath(c, version, longer);
    NamesDiffer(longer.entries);
    forall e | e in c.entries
      ensures e.name != BundleName(version)
    {
      var i :| 0 <= i < |c.entries| && c.entries[i] == e;
      assert longer.entries[i] == e;
    }
  }

  /** Names made of a package prefix and an accepted version have no white space. */
  lemma BundleNameIsToken(version: string)
    requires ValidSemver(version)
    ensures Token(BundleName(version)) && Value(version)
  {
    hide MatchesPattern;
    VersionNotEmpty(version);
    forall c | c in version
      ensures IdentifierChar(c) || c == '.'
    {
      VersionChar(version, c);
    }
    hide IsSpace, IdentifierChar;
    forall c | c in BundleName(version)
      ensures !IsSpace(c)
    {
      if c in PACKAGE_NAME || c == '.' { PackageHasNoSpace(c); }
      if c in version { NameCharacterIsNoSpace(c); }
    }
    if '\n' in version { NameCharacterIsNoSpace('\n'); }
  }

  lemma NameCharacterIsNoSpace(c: char)
    requires IdentifierChar(c) || c == '.'
    ensures !IsSpace(c) && c != '\n'
  {
  }

  lemma PackageHasNoSpace(c: char)
    requires c in PACKAGE_NAME || c == '.'
    ensures !IsSpace(c)
  {
  }

  lemma VersionNotEmpty(version: string)
    requires MatchesPattern(version)
    ensures version != ""
  {
    assert Before("", '-') == "" && Split("", '.') == [""];
    assert !MatchesPattern("");
  }

  lemma VersionChar(version: string, c: char)
    requires MatchesPattern(version) && c in version
    ensures IdentifierChar(c) || c == '.'
  {
    Partition(version, '-');
    if c == '-' || c == '.' {
    } else if c in Before(version, '-') {
      SplitCovers(Before(version, '-'), '.', c);
      var part :| part in Core(version) && c in part;
      assert Canonical(part);
    } else {
      SplitCovers(After(version, '-'), '.', c);
      var id :| id in Prerelease(version) && c in id;
    }
  }

  lemma PackageIsOneLine()
    ensures OneLine(PACKAGE_NAME) && PACKAGE_NAME != ""
  {
  }

  /** A release channel can be written and read back. */
  lemma ReleaseChannelClean(c: Channel)
    requires ReleasePath(c.entries) && OneLine(c.name) && c.package == PACKAGE_NAME
    ensures CleanChannel(c)
  {
    hide Older, ValidEntryName, Token, OneLine, NameBefore;
    PackageIsOneLine();
    forall e | e in c.entries
      ensures Token(e.name)
    {
      EntryNameIsToken(e.name);
    }
    forall e | e in c.entries
      ensures CleanEntry(e)
    {
      var i :| 0 <= i < |c.entries| && c.entries[i] == e;
      PathEdge(c.entries, i);
      assert i > 0 ==> c.entries[i - 1] in c.entries;
      assert e.skips == [];
    }
  }

  lemma EntryNameIsToken(name: string)
    requires ValidEntryName(name)
    ensures Token(name)
  {
    BundleNameIsToken(VersionOf(name));
    assert name == name[..|PACKAGE_NAME| + 1] + name[|PACKAGE_NAME| + 1..];
    assert BundleName(VersionOf(name)) == name;
  }
}
