/** The rolling nightly channel: only the newest build carries upgrade edges, to every other one. */
module CatalogNightly {
  import opened Wrappers
  import opened Sequences
  import opened Text
  import opened SemVer
  import opened CatalogChannel
  import opened CatalogBundles
  import opened CatalogRelease

  /** A version accepted as a release, the nightly mark, and a hash. */
  predicate NightlyTag(tag: string) {
    exists k :: 0 <= k <= |tag| && MarkAt(tag, k) && ValidSemver(tag[..k])
  }

  /** The names of the entries other than `name`, in order. */
  function OtherNames(entries: seq<Entry>, name: string): seq<string> {
    if entries == [] then []
    else (if entries[0].name != name then [entries[0].name] else []) + OtherNames(entries[1..], name)
  }

  function NameSet(entries: seq<Entry>): set<string> {
    set e | e in entries :: e.name
  }

  function Names(entries: seq<Entry>): (names: seq<string>)
    ensures |names| == |entries| && forall k :: 0 <= k < |names| ==> names[k] == entries[k].name
  {
    seq(|entries|, k requires 0 <= k < |entries| => entries[k].name)
  }

  function Bare(names: seq<string>): (entries: seq<Entry>)
    ensures |entries| == |names| && forall i :: 0 <= i < |names| ==> entries[i] == Entry(names[i], None, [])
  {
    seq(|names|, i requires 0 <= i < |names| => Entry(names[i], None, []))
  }

  /** The last name replaces the one before it and skips all earlier ones. */
  function NightlyEntries(names: seq<string>): seq<Entry>
    requires names != []
  {
    var n := |names|;
    Bare(names[..n - 1])
    + [Entry(names[n - 1],
             if n >= 2 then Some(names[n - 2]) else None,
             if n >= 3 then names[..n - 2] else [])]
  }

  /** What the channel file is rewritten to. */
  function NightlyChannel(c: Channel, name: string, tag: string): Channel {
    Channel(name, NightlyEntries(OtherNames(c.entries, BundleName(tag)) + [BundleName(tag)]), PACKAGE_NAME)
  }

  lemma {:induction false} OtherNamesHold(entries: seq<Entry>, name: string)
    ensures name !in OtherNames(entries, name)
    ensures forall n :: n in OtherNames(entries, name) <==> n in NameSet(entries) && n != name
  {
    if entries != [] {
      OtherNamesHold(entries[1..], name);
      assert entries == [entries[0]] + entries[1..];
      assert NameSet(entries) == {entries[0].name} + NameSet(entries[1..]);
    }
  }

  /** `names` are the names in `entries` other than `newest`, in their order. */
  ghost predicate KeptInOrder(entries: seq<Entry>, names: seq<string>, newest: string) {
    exists places: seq<nat> :: KeptAt(entries, names, newest, places)
  }

  ghost predicate KeptAt(entries: seq<Entry>, names: seq<string>, newest: string, places: seq<nat>) {
    && |places| == |names|
    && (forall k :: 0 <= k < |names| ==> places[k] < |entries| && entries[places[k]].name == names[k] != newest)
    && (forall k, l :: 0 <= k < l < |names| ==> places[k] < places[l])
    && (forall i: nat :: i < |entries| && entries[i].name != newest ==> i in places)
  }

  lemma {:induction false} OtherNamesAreKept(entries: seq<Entry>, name: string) returns (places: seq<nat>)
    ensures KeptAt(entries, OtherNames(entries, name), name, places)
  {
    if entries == [] {
      places := [];
    } else {
      hide KeptAt;
      var rest := OtherNamesAreKept(entries[1..], name);
      places := KeptOneMore(entries, OtherNames(entries[1..], name), name, rest);
    }
  }

  /** The same places, counted with one more entry in front. */
  function Later(places: seq<nat>): (later: seq<nat>)
    ensures |later| == |places| && forall k :: 0 <= k < |places| ==> later[k] == places[k] + 1
  {
    seq(|places|, k requires 0 <= k < |places| => places[k] + 1)
  }

  lemma LaterHolds(places: seq<nat>, i: nat)
    requires i in places
    ensures i + 1 in Later(places)
  {
    var k :| 0 <= k < |places| && places[k] == i;
    assert Later(places)[k] == i + 1;
  }

  /** Places in the entries but the first are later places, which leave out at most the first. */
  lemma KeptLater(entries: seq<Entry>, names: seq<string>, name: string, rest: seq<nat>)
    requires entries != [] && KeptAt(entries[1..], names, name, rest)
    ensures |rest| == |names|
    ensures forall k :: 0 <= k < |names| ==> 0 < Later(rest)[k] < |entries|
    ensures forall k :: 0 <= k < |names| ==> entries[Later(rest)[k]].name == names[k] != name
    ensures forall k, l :: 0 <= k < l < |names| ==> Later(rest)[k] < Later(rest)[l]
    ensures forall i: nat :: 0 < i < |entries| && entries[i].name != name ==> i in Later(rest)
  {
    forall k | 0 <= k < |names|
      ensures entries[Later(rest)[k]].name == names[k] != name
    {
      assert entries[1..][rest[k]] == entries[rest[k] + 1];
    }
    forall i: nat | 0 < i < |entries| && entries[i].name != name
      ensures i in Later(rest)
    {
      assert entries[1..][i - 1] == entries[i];
      LaterHolds(rest, i - 1);
    }
  }

  lemma KeptOneMore(entries: seq<Entry>, names: seq<string>, name: string, rest: seq<nat>) returns (places: seq<nat>)
    requires entries != [] && KeptAt(entries[1..], names, name, rest)
    ensures KeptAt(entries, (if entries[0].name != name then [entries[0].name] else []) + names, name, places)
  {
    KeptLater(entries, names, name, rest);
    places := Later(rest);
    if entries[0].name != name {
      places := [0] + places;
      FirstToo(entries, names, name, Later(rest));
    } else {
      assert [] + names == names;
    }
  }

  lemma FirstToo(entries: seq<Entry>, names: seq<string>, name: string, later: seq<nat>)
    requires entries != [] && entries[0].name != name && |later| == |names|
    requires forall k :: 0 <= k < |names| ==> 0 < later[k] < |entries|
    requires forall k :: 0 <= k < |names| ==> entries[later[k]].name == names[k] != name
    requires forall k, l :: 0 <= k < l < |names| ==> later[k] < later[l]
    requires forall i: nat :: 0 < i < |entries| && entries[i].name != name ==> i in later
    ensures KeptAt(entries, [entries[0].name] + names, name, [0] + later)
  {
    var all, places := [entries[0].name] + names, [0] + later;
    forall k | 0 <= k < |all|
      ensures places[k] < |entries| && entries[places[k]].name == all[k] != name
    {
      assert k > 0 ==> all[k] == names[k - 1] && places[k] == later[k - 1];
    }
    forall k, l | 0 <= k < l < |all|
      ensures places[k] < places[l]
    {
      assert places[l] == later[l - 1] && (k > 0 ==> places[k] == later[k - 1]);
    }
    forall i: nat | i < |entries| && entries[i].name != name
      ensures i in places
    {
      assert if i == 0 then places[0] == 0 else i in later;
    }
  }

  /**
   The entries are the names of before, in order and without edges, then the newest,
   which replaces the one before it and skips all earlier ones.
   */
  ghost predicate NewestLast(before: seq<Entry>, entries: seq<Entry>, newest: string) {
    var last := |entries| - 1;
    && last >= 0 && entries[last].name == newest && OnlyHead(entries, last)
    && (forall k :: 0 <= k < last ==> entries[k] == Entry(entries[k].name, None, []))
    && entries[last].predecessor == (if last == 0 then None else Some(entries[last - 1].name))
    && |entries[last].skips| == (if last == 0 then 0 else last - 1)
    && (forall k :: 0 <= k < last - 1 ==> entries[last].skips[k] == entries[k].name)
    && KeptInOrder(before, Names(entries[..last]), newest)
  }

  lemma {:induction false} OtherNamesOfBare(names: seq<string>, last: Entry)
    requires last.name !in names
    ensures OtherNames(Bare(names) + [last], last.name) == names
  {
    var entries := Bare(names) + [last];
    if names == [] {
      assert entries == [last] && entries[1..] == [];
    } else {
      OtherNamesOfBare(names[1..], last);
      assert entries[1..] == Bare(names[1..]) + [last];
    }
  }

  /** Rewriting a rewritten channel for the same build changes nothing. */
  lemma RewriteIsIdempotent(c: Channel, name: string, tag: string)
    ensures NightlyChannel(NightlyChannel(c, name, tag), name, tag) == NightlyChannel(c, name, tag)
  {
    var others := OtherNames(c.entries, BundleName(tag));
    var names := others + [BundleName(tag)];
    OtherNamesHold(c.entries, BundleName(tag));
    assert names[..|names| - 1] == others;
    OtherNamesOfBare(others, NightlyEntries(names)[|names| - 1]);
  }

  /**
   The rewritten channel has exactly one head, the new build; no other entry carries
   edges. The names are those of before plus the new one.
   */
  lemma RewriteHasOneHead(c: Channel, name: string, tag: string)
    requires forall e :: e in c.entries ==> e.name != ""
    ensures NewestLast(c.entries, NightlyChannel(c, name, tag).entries, "neteye-operator." + tag)
    ensures NameSet(NightlyChannel(c, name, tag).entries) == NameSet(c.entries) + {BundleName(tag)}
  {
    hide NewestLast, KeptAt, NameSet, NightlyEntries, OtherNames;
    assert BundleName(tag) == "neteye-operator." + tag;
    var others := OtherNames(c.entries, BundleName(tag));
    OtherNamesHold(c.entries, BundleName(tag));
    NoEmptyName(c.entries);
    var places := OtherNamesAreKept(c.entries, BundleName(tag));
    KeptThenNewest(c.entries, others, BundleName(tag), places);
    NightlyNames(others + [BundleName(tag)]);
    Append(others, BundleName(tag));
  }

  lemma KeptThenNewest(before: seq<Entry>, others: seq<string>, newest: string, places: seq<nat>)
    requires KeptAt(before, others, newest, places) && newest !in others && "" !in others
    ensures NewestLast(before, NightlyEntries(others + [newest]), newest)
  {
    hide KeptAt, NightlyEntries, OnlyHead;
    var names := others + [newest];
    assert names[..|names| - 1] == others;
    HeadSupersedesOthers(names);
    NightlyShape(others, newest);
  }

  lemma NightlyShape(others: seq<string>, newest: string)
    ensures var entries := NightlyEntries(others + [newest]);
            var last := |others|;
            && |entries| == last + 1 && entries[last].name == newest
            && (forall k :: 0 <= k < last ==> entries[k] == Entry(entries[k].name, None, []))
            && entries[last].predecessor == (if last == 0 then None else Some(entries[last - 1].name))
            && |entries[last].skips| == (if last == 0 then 0 else last - 1)
            && (forall k :: 0 <= k < last - 1 ==> entries[last].skips[k] == entries[k].name)
            && Names(entries[..last]) == others
  {
    assert (others + [newest])[..|others|] == others;
  }

  lemma NoEmptyName(entries: seq<Entry>)
    requires forall e :: e in entries ==> e.name != ""
    ensures "" !in NameSet(entries)
  {
  }

  lemma NightlyNames(names: seq<string>)
    requires names != []
    ensures NameSet(NightlyEntries(names)) == Elements(names)
  {
    var entries := NightlyEntries(names);
    forall n | n in names
      ensures n in NameSet(entries)
    {
      var i :| 0 <= i < |names| && names[i] == n;
      assert entries[i].name == n && entries[i] in entries;
    }
  }

  lemma HeadSupersedesOthers(names: seq<string>)
    requires names != [] && names[|names| - 1] !in names[..|names| - 1]
    requires "" !in names[..|names| - 1]
    ensures OnlyHead(NightlyEntries(names), |names| - 1)
  {
    var entries, last := NightlyEntries(names), |names| - 1;
    var head := entries[last];
    assert head in entries;
    forall k | 0 <= k < last
      ensures head.predecessor == Some(names[k]) || names[k] in head.skips
      ensures names[k] in ReplacedNames(entries) + SkippedNames(entries)
    {
      assert names[k] in names[..last];
      if k < last - 1 {
        assert names[k] == names[..last - 1][k];
      }
    }
    forall e | e in entries
      ensures e.predecessor != Some(names[last]) && names[last] !in e.skips
    {
      assert last >= 1 ==> names[last - 1] == names[..last][last - 1];
      assert forall s :: s in head.skips ==> s in names[..last];
    }
  }

  lemma ReadLineIsClean(entries: seq<Entry>, line: string)
    requires (forall e :: e in entries ==> CleanEntry(e)) && ReadLine(entries, line).Some?
    ensures forall e :: e in ReadLine(entries, line).value ==> CleanEntry(e)
  {
    hide Token, StartsWith;
    if entries != [] {
      assert entries[|entries| - 1] in entries;
    }
  }

  /** Names and edges read from a channel file have no white space. */
  lemma {:induction false} ReadEntriesAreClean(entries: seq<Entry>, lines: seq<string>)
    requires forall e :: e in entries ==> CleanEntry(e)
    requires ReadLines(entries, lines).Some?
    ensures forall e :: e in ReadLines(entries, lines).value ==> CleanEntry(e)
    decreases lines
  {
    if lines != [] {
      ReadLineIsClean(entries, lines[0]);
      ReadEntriesAreClean(ReadLine(entries, lines[0]).value, lines[1..]);
    }
  }

  lemma {:induction false} FieldNotEmpty(lines: seq<string>, prefix: string)
    ensures FieldIn(lines, prefix) != Some("")
  {
    if lines != [] {
      FieldNotEmpty(lines[1..], prefix);
    }
  }

  lemma ParsedIsClean(document: string, name: string)
    requires ParsedChannel(document, name).Success?
    ensures var c := ParsedChannel(document, name).value;
            c.name == name && c.package != "" && forall e :: e in c.entries ==> CleanEntry(e) && Token(e.name)
  {
    ReadEntriesAreClean([], SplitLines(document));
    FieldNotEmpty(Split(document, '\n'), "package" + ": ");
  }

  lemma MarkCharacters(tag: string, k: nat)
    requires k <= |tag| && MarkAt(tag, k)
    ensures forall c :: c in tag[k..] ==> !IsSpace(c)
  {
    var hash := tag[k + |NIGHTLY_MARK|..];
    assert tag[k..] == NIGHTLY_MARK + hash;
    forall c | c in tag[k..]
      ensures !IsSpace(c)
    {
      assert c in NIGHTLY_MARK || c in hash;
    }
  }

  lemma NightlyTagIsToken(tag: string)
    requires NightlyTag(tag)
    ensures Token(BundleName(tag)) && Value(tag) && IsNightly(tag)
  {
    hide ValidSemver;
    var k :| 0 <= k <= |tag| && MarkAt(tag, k) && ValidSemver(tag[..k]);
    MarkCharacters(tag, k);
    BundleNameIsToken(tag[..k]);
    assert tag == tag[..k] + tag[k..];
    forall c | c in BundleName(tag)
      ensures !IsSpace(c)
    {
      assert c in BundleName(tag[..k]) || c in tag[k..];
    }
    assert forall c :: c in tag ==> c in BundleName(tag);
  }

  /** The rewritten channel can be read back. */
  lemma RewriteIsClean(c: Channel, name: string, tag: string)
    requires (forall e :: e in c.entries ==> Token(e.name)) && OneLine(name) && NightlyTag(tag)
    ensures CleanChannel(NightlyChannel(c, name, tag))
  {
    hide BundleName, NightlyTag, Token, CleanEntry, NightlyEntries, OneLine;
    assert OneLine(PACKAGE_NAME) by { PackageIsOneLine(); }
    var others := OtherNames(c.entries, BundleName(tag));
    var names := others + [BundleName(tag)];
    OtherNamesHold(c.entries, BundleName(tag));
    NightlyTagIsToken(tag);
    assert forall n :: n in names ==> Token(n);
    NightlyEntriesClean(names);
  }

  lemma NightlyEntriesClean(names: seq<string>)
    requires names != [] && forall n :: n in names ==> Token(n)
    ensures forall e :: e in NightlyEntries(names) ==> CleanEntry(e)
  {
    hide Token;
    var entries, n := NightlyEntries(names), |names|;
    forall i | 0 <= i < n
      ensures CleanEntry(entries[i])
    {
      assert names[i] in names;
      assert n >= 2 ==> names[n - 2] in names;
      assert n >= 3 ==> forall s :: s in names[..n - 2] ==> s in names;
      assert i < n - 1 ==> names[..n - 1][i] == names[i];
    }
  }
}
