/** Channels of the catalog as text: reading them, writing them, and finding their head. */
module CatalogChannel {
  import opened Wrappers
  import opened Text

  const PACKAGE_NAME := "neteye-operator"

  /** `predecessor` is the entry this one replaces. */
  datatype Entry = Entry(name: string, predecessor: Option<string>, skips: seq<string>)

  datatype Channel = Channel(name: string, entries: seq<Entry>, package: string)

  datatype CatalogError =
    | UnsupportedSkipRange | MissingPackage | EdgeBeforeEntry | NotOneHead | InvalidEntry
    | InvalidVersion | InvalidImage | MissingPackageFile | AlreadyReferenced | AmbiguousBundle | BundleWithoutImage
    | AlreadyInChannel | NotNewer | NothingToBackport

  // ----- lines -----

  predicate IsLineBreak(c: char) {
    c in {'\n', '\r', '\U{0B}', '\U{0C}', '\U{1C}', '\U{1D}', '\U{1E}', '\U{85}', '\U{2028}', '\U{2029}'}
  }

  predicate IsSpace(c: char) {
    IsLineBreak(c) || c in {' ', '\t', '\U{1F}', '\U{A0}', '\U{1680}', '\U{202F}', '\U{205F}', '\U{3000}'}
    || '\U{2000}' <= c <= '\U{200A}'
  }

  /** Lines end at the line and paragraph separators of Unicode, and at the information separators 1C to 1E. */
  lemma LineBreaksAre(c: char)
    ensures var n := c as int;
            IsLineBreak(c) <==>
              0x0A <= n <= 0x0D || 0x1C <= n <= 0x1E || n == 0x85 || n == 0x2028 || n == 0x2029
  {
  }

  /** White space are the line breaks and the characters Unicode counts as space. */
  lemma SpacesAre(c: char)
    ensures var n := c as int;
            IsSpace(c) <==>
              || 0x09 <= n <= 0x0D || 0x1C <= n <= 0x20 || n == 0x85 || n == 0xA0 || n == 0x1680
              || 0x2000 <= n <= 0x200A || n == 0x2028 || n == 0x2029 || n == 0x202F || n == 0x205F || n == 0x3000
  {
  }

  predicate OneLine(s: string) { forall c :: c in s ==> !IsLineBreak(c) }

  /** A name without white space. */
  predicate Token(s: string) { s != "" && forall c :: c in s ==> !IsSpace(c) }

  function FirstLine(text: string): string {
    if text == "" || IsLineBreak(text[0]) then "" else [text[0]] + FirstLine(text[1..])
  }

  function LaterLines(text: string): (rest: string)
    ensures text != "" ==> |rest| < |text|
  {
    if text == "" then "" else if IsLineBreak(text[0]) then text[1..] else LaterLines(text[1..])
  }

  /**
   The lines of a text, ended by any line break. A carriage return followed by a
   newline yields an extra empty line here, which no pattern below matches.
   */
  function SplitLines(text: string): seq<string>
    decreases |text|
  {
    if text == "" then [] else [FirstLine(text)] + SplitLines(LaterLines(text))
  }

  function JoinLines(lines: seq<string>): string {
    if lines == [] then "" else lines[0] + "\n" + JoinLines(lines[1..])
  }

  lemma {:induction false} FirstLineOf(line: string, rest: string)
    requires OneLine(line)
    ensures FirstLine(line + "\n" + rest) == line && LaterLines(line + "\n" + rest) == rest
  {
    var text := line + "\n" + rest;
    if line == "" {
      assert text[0] == '\n' && text[1..] == rest;
    } else {
      assert line[0] in line && text[0] == line[0];
      FirstLineOf(line[1..], rest);
      assert text[1..] == line[1..] + "\n" + rest;
    }
  }

  /** Joined lines are split into the same lines. */
  lemma {:induction false} SplitJoinLines(lines: seq<string>)
    requires forall l :: l in lines ==> OneLine(l)
    ensures SplitLines(JoinLines(lines)) == lines
  {
    if lines != [] {
      FirstLineOf(lines[0], JoinLines(lines[1..]));
      SplitJoinLines(lines[1..]);
    }
  }

  lemma {:induction false} SplitNewlines(lines: seq<string>)
    requires forall l :: l in lines ==> OneLine(l)
    ensures Split(JoinLines(lines), '\n') == lines + [""]
  {
    if lines == [] {
      assert Split("", '\n') == [""];
    } else {
      assert OneLine(lines[0]) && IsLineBreak('\n') && '\n' !in lines[0];
      SplitNewlines(lines[1..]);
      SplitOnce(lines[0], JoinLines(lines[1..]), '\n');
      assert lines[0] + ['\n'] + JoinLines(lines[1..]) == JoinLines(lines);
    }
  }

  // ----- reading -----

  predicate StartsWith(s: string, prefix: string) {
    |prefix| <= |s| && s[..|prefix|] == prefix
  }

  /** The text after `prefix` on the first line that has more than it. */
  function FieldIn(lines: seq<string>, prefix: string): Option<string> {
    if lines == [] then None
    else if StartsWith(lines[0], prefix) && |lines[0]| > |prefix| then Some(lines[0][|prefix|..])
    else FieldIn(lines[1..], prefix)
  }

  function DocumentField(document: string, name: string): Option<string> {
    FieldIn(Split(document, '\n'), name + ": ")
  }

  /** The rest of a line that is exactly `prefix` followed by a name without white space. */
  function NameAfter(prefix: string, line: string): Option<string> {
    if StartsWith(line, prefix) && Token(line[|prefix|..]) then Some(line[|prefix|..]) else None
  }

  const NAME_LINE := "  - name: "
  const REPLACES_LINE := "    replaces: "
  const SKIP_LINE := "      - "
  const SKIP_RANGE := "    skipRange:"

  /** What one line adds to the entries read so far; none when it needs an entry and there is none. */
  function ReadLine(entries: seq<Entry>, line: string): Option<seq<Entry>> {
    if NameAfter(NAME_LINE, line).Some? then
      Some(entries + [Entry(NameAfter(NAME_LINE, line).value, None, [])])
    else if NameAfter(REPLACES_LINE, line).Some? then
      if entries == [] then None
      else
        var last := entries[|entries| - 1];
        Some(entries[..|entries| - 1] + [last.(predecessor := NameAfter(REPLACES_LINE, line))])
    else if NameAfter(SKIP_LINE, line).Some? then
      if entries == [] then None
      else
        var last := entries[|entries| - 1];
        Some(entries[..|entries| - 1] + [last.(skips := last.skips + [NameAfter(SKIP_LINE, line).value])])
    else Some(entries)
  }

  function ReadLines(entries: seq<Entry>, lines: seq<string>): Option<seq<Entry>>
    decreases lines
  {
    if lines == [] then Some(entries)
    else
      var next := ReadLine(entries, lines[0]);
      if next.None? then None else ReadLines(next.value, lines[1..])
  }

  function ParsedChannel(document: string, name: string): Result<Channel, CatalogError> {
    if exists line :: line in Split(document, '\n') && StartsWith(line, SKIP_RANGE) then Failure(UnsupportedSkipRange)
    else if DocumentField(document, "package").None? then Failure(MissingPackage)
    else
      var entries := ReadLines([], SplitLines(document));
      if entries.None? then Failure(EdgeBeforeEntry)
      else Success(Channel(name, entries.value, DocumentField(document, "package").value))
  }

  method Parse(document: string, name: string) returns (r: Result<Channel, CatalogError>)
    ensures r == ParsedChannel(document, name)
  {
    var newlines := Split(document, '\n');
    for i := 0 to |newlines|
      invariant forall k :: 0 <= k < i ==> !StartsWith(newlines[k], SKIP_RANGE)
    {
      if StartsWith(newlines[i], SKIP_RANGE) {
        return Failure(UnsupportedSkipRange);
      }
    }
    var package := DocumentField(document, "package");
    if package.None? {
      return Failure(MissingPackage);
    }
    var entries: seq<Entry> := [];
    var lines := SplitLines(document);
    for i := 0 to |lines|
      invariant ReadLines([], lines) == ReadLines(entries, lines[i..])
    {
      var line := lines[i];
      assert lines[i..][1..] == lines[i + 1..];
      if NameAfter(NAME_LINE, line).Some? {
        entries := entries + [Entry(NameAfter(NAME_LINE, line).value, None, [])];
      } else if NameAfter(REPLACES_LINE, line).Some? {
        if |entries| == 0 {
          return Failure(EdgeBeforeEntry);
        }
        var last := entries[|entries| - 1];
        entries := entries[..|entries| - 1] + [last.(predecessor := NameAfter(REPLACES_LINE, line))];
      } else if NameAfter(SKIP_LINE, line).Some? {
        if |entries| == 0 {
          return Failure(EdgeBeforeEntry);
        }
        var last := entries[|entries| - 1];
        entries := entries[..|entries| - 1] + [last.(skips := last.skips + [NameAfter(SKIP_LINE, line).value])];
      }
    }
    return Success(Channel(name, entries, package.value));
  }

  // ----- writing -----

  function SkipLines(skips: seq<string>): (lines: seq<string>)
    ensures |lines| == |skips| && forall i :: 0 <= i < |skips| ==> lines[i] == SKIP_LINE + skips[i]
  {
    seq(|skips|, i requires 0 <= i < |skips| => SKIP_LINE + skips[i])
  }

  function EntryLines(e: Entry): seq<string> {
    [NAME_LINE + e.name]
    + (if e.predecessor.Some? && e.predecessor.value != "" then [REPLACES_LINE + e.predecessor.value] else [])
    + (if e.skips != [] then ["    skips:"] + SkipLines(e.skips) else [])
  }

  function EntriesLines(entries: seq<Entry>): seq<string> {
    if entries == [] then [] else EntryLines(entries[0]) + EntriesLines(entries[1..])
  }

  function ChannelLines(c: Channel): seq<string> {
    ["schema: olm.channel", "package: " + c.package, "name: " + c.name, "entries:"] + EntriesLines(c.entries)
  }

  function Rendered(c: Channel): string { JoinLines(ChannelLines(c)) }

  method RenderEntry(before: seq<string>, entry: Entry) returns (lines: seq<string>)
    ensures lines == before + EntryLines(entry)
  {
    lines := before + [NAME_LINE + entry.name];
    if entry.predecessor.Some? && entry.predecessor.value != "" {
      lines := lines + [REPLACES_LINE + entry.predecessor.value];
    }
    if |entry.skips| > 0 {
      lines := lines + ["    skips:"];
      lines := lines + SkipLines(entry.skips);
    }
  }

  method Render(c: Channel) returns (text: string)
    ensures text == Rendered(c)
  {
    var lines := ["schema: olm.channel", "package: " + c.package, "name: " + c.name, "entries:"];
    for i := 0 to |c.entries|
      invariant lines + EntriesLines(c.entries[i..]) == ChannelLines(c)
    {
      lines := RenderEntry(lines, c.entries[i]);
      assert c.entries[i..][1..] == c.entries[i + 1..];
    }
    assert c.entries[|c.entries|..] == [] && lines + EntriesLines([]) == lines;
    text := JoinLines(lines);
  }

  // ----- reading back what was written -----

  predicate CleanEntry(e: Entry) {
    Token(e.name) && (e.predecessor.Some? ==> Token(e.predecessor.value)) && forall s :: s in e.skips ==> Token(s)
  }

  predicate CleanChannel(c: Channel) {
    c.package != "" && OneLine(c.package) && OneLine(c.name) && forall e :: e in c.entries ==> CleanEntry(e)
  }

  lemma NameAfterOwn(prefix: string, name: string)
    requires Token(name)
    ensures NameAfter(prefix, prefix + name) == Some(name)
  {
    assert (prefix + name)[..|prefix|] == prefix && (prefix + name)[|prefix|..] == name;
  }

  lemma NameAfterOther(prefix: string, line: string, k: nat)
    requires k < |prefix| && k < |line| && prefix[k] != line[k]
    ensures NameAfter(prefix, line) == None
  {
    assert |prefix| <= |line| ==> line[..|prefix|][k] == line[k];
  }

  lemma {:induction false} ReadLinesSplit(entries: seq<Entry>, first: seq<string>, rest: seq<string>)
    requires ReadLines(entries, first).Some?
    ensures ReadLines(entries, first + rest) == ReadLines(ReadLines(entries, first).value, rest)
    decreases first
  {
    if first == [] {
      assert first + rest == rest;
    } else {
      assert (first + rest)[1..] == first[1..] + rest;
      ReadLinesSplit(ReadLine(entries, first[0]).value, first[1..], rest);
    }
  }

  lemma {:induction false} ReadSkips(entries: seq<Entry>, e: Entry, skips: seq<string>)
    requires forall s :: s in skips ==> Token(s)
    ensures ReadLines(entries + [e], SkipLines(skips)) == Some(entries + [e.(skips := e.skips + skips)])
    decreases skips
  {
    if skips == [] {
      assert e.skips + skips == e.skips;
    } else {
      var line := SKIP_LINE + skips[0];
      NameAfterOther(NAME_LINE, line, 2);
      NameAfterOther(REPLACES_LINE, line, 4);
      NameAfterOwn(SKIP_LINE, skips[0]);
      var next := e.(skips := e.skips + [skips[0]]);
      assert (entries + [e])[..|entries|] == entries;
      assert ReadLine(entries + [e], line) == Some(entries + [next]);
      assert SkipLines(skips)[1..] == SkipLines(skips[1..]);
      ReadSkips(entries, next, skips[1..]);
      assert next.skips + skips[1..] == e.skips + skips;
    }
  }

  lemma ReadEntry(entries: seq<Entry>, e: Entry)
    requires CleanEntry(e)
    ensures ReadLines(entries, EntryLines(e)) == Some(entries + [e])
  {
    var name := [NAME_LINE + e.name];
    var edge := if e.predecessor.Some? && e.predecessor.value != "" then [REPLACES_LINE + e.predecessor.value] else [];
    var skips := if e.skips != [] then ["    skips:"] + SkipLines(e.skips) else [];
    var e0, e1 := Entry(e.name, None, []), Entry(e.name, e.predecessor, []);
    NameAfterOwn(NAME_LINE, e.name);
    assert name[1..] == [];
    assert ReadLines(entries, name) == Some(entries + [e0]);
    ReadReplaces(entries, e0, e1, edge);
    ReadSkipSection(entries, e1, e, skips);
    ReadLinesSplit(entries, name, edge);
    ReadLinesSplit(entries, name + edge, skips);
  }

  lemma ReadReplaces(entries: seq<Entry>, e0: Entry, e1: Entry, lines: seq<string>)
    requires e0.predecessor.None? && e1 == e0.(predecessor := e1.predecessor)
    requires e1.predecessor.Some? ==> Token(e1.predecessor.value)
    requires lines == if e1.predecessor.Some? then [REPLACES_LINE + e1.predecessor.value] else []
    ensures ReadLines(entries + [e0], lines) == Some(entries + [e1])
  {
    if e1.predecessor.Some? {
      var line := REPLACES_LINE + e1.predecessor.value;
      NameAfterOther(NAME_LINE, line, 2);
      NameAfterOwn(REPLACES_LINE, e1.predecessor.value);
      assert (entries + [e0])[..|entries|] == entries;
      assert ReadLine(entries + [e0], line) == Some(entries + [e1]);
      assert lines[1..] == [];
    }
  }

  lemma ReadSkipSection(entries: seq<Entry>, e1: Entry, e: Entry, lines: seq<string>)
    requires e1.skips == [] && e == e1.(skips := e.skips) && forall s :: s in e.skips ==> Token(s)
    requires lines == if e.skips != [] then ["    skips:"] + SkipLines(e.skips) else []
    ensures ReadLines(entries + [e1], lines) == Some(entries + [e])
  {
    if e.skips != [] {
      NameAfterOther(NAME_LINE, "    skips:", 2);
      NameAfterOther(REPLACES_LINE, "    skips:", 4);
      NameAfterOther(SKIP_LINE, "    skips:", 4);
      assert lines[1..] == SkipLines(e.skips);
      ReadSkips(entries, e1, e.skips);
      assert e1.skips + e.skips == e.skips;
    }
  }

  lemma {:induction false} ReadEntries(before: seq<Entry>, entries: seq<Entry>)
    requires forall e :: e in entries ==> CleanEntry(e)
    ensures ReadLines(before, EntriesLines(entries)) == Some(before + entries)
    decreases entries
  {
    if entries == [] {
      assert before + entries == before;
    } else {
      ReadEntry(before, entries[0]);
      ReadLinesSplit(before, EntryLines(entries[0]), EntriesLines(entries[1..]));
      ReadEntries(before + [entries[0]], entries[1..]);
      assert before + [entries[0]] + entries[1..] == before + entries;
    }
  }

  /** A line of a written channel: unbroken, and no skip range. */
  predicate PlainLine(line: string) { OneLine(line) && !StartsWith(line, SKIP_RANGE) }

  lemma EntryLinesPlain(e: Entry)
    requires CleanEntry(e)
    ensures forall l :: l in EntryLines(e) ==> PlainLine(l)
  {
    forall l | l in EntryLines(e)
      ensures PlainLine(l)
    {
      if l == NAME_LINE + e.name {
        assert l[2] == '-';
      } else if e.predecessor.Some? && l == REPLACES_LINE + e.predecessor.value {
        assert l[4] == 'r';
      } else if l == "    skips:" {
        assert l[8] == 's';
      } else {
        var i :| 0 <= i < |e.skips| && l == SKIP_LINE + e.skips[i];
        assert e.skips[i] in e.skips && l[4] == ' ';
      }
    }
  }

  lemma {:induction false} EntriesLinesPlain(entries: seq<Entry>)
    requires forall e :: e in entries ==> CleanEntry(e)
    ensures forall l :: l in EntriesLines(entries) ==> PlainLine(l)
  {
    if entries != [] {
      EntryLinesPlain(entries[0]);
      EntriesLinesPlain(entries[1..]);
    }
  }

  lemma {:induction false} HeaderIsSkipped(entries: seq<Entry>, lines: seq<string>)
    requires forall l :: l in lines ==> l != "" && l[0] != ' '
    ensures ReadLines(entries, lines) == Some(entries)
    decreases lines
  {
    if lines != [] {
      assert lines[0] in lines && forall l :: l in lines[1..] ==> l in lines;
      NameAfterOther(NAME_LINE, lines[0], 0);
      NameAfterOther(REPLACES_LINE, lines[0], 0);
      NameAfterOther(SKIP_LINE, lines[0], 0);
      HeaderIsSkipped(entries, lines[1..]);
    }
  }

  /** Reading a written channel gives the channel back. */
  lemma ParseRendered(c: Channel)
    requires CleanChannel(c)
    ensures ParsedChannel(Rendered(c), c.name) == Success(c)
  {
    hide OneLine, PlainLine, Token, SplitLines, Split, JoinLines, ReadLines, EntriesLines;
    var header := ["schema: olm.channel", "package: " + c.package, "name: " + c.name, "entries:"];
    var lines := ChannelLines(c);
    ChannelLinesPlain(c);
    PlainLines(lines);
    SplitNewlines(lines);
    SplitJoinLines(lines);
    PackageField(c);
    HeaderIsSkipped([], header);
    ReadEntries([], c.entries);
    ReadLinesSplit([], header, EntriesLines(c.entries));
    assert [] + c.entries == c.entries;
  }

  lemma PlainLines(lines: seq<string>)
    requires forall l :: l in lines ==> PlainLine(l)
    ensures forall l :: l in lines ==> OneLine(l)
    ensures forall l :: l in lines + [""] ==> !StartsWith(l, SKIP_RANGE)
  {
  }

  lemma ChannelLinesPlain(c: Channel)
    requires CleanChannel(c)
    ensures forall l :: l in ChannelLines(c) ==> PlainLine(l)
  {
    EntriesLinesPlain(c.entries);
    var header := ["schema: olm.channel", "package: " + c.package, "name: " + c.name, "entries:"];
    forall l | l in header
      ensures PlainLine(l)
    {
      assert l[0] != ' ';
      forall x | x in l
        ensures !IsLineBreak(x)
      {
        assert x in "schema: olm.channel" || x in "package: " || x in c.package || x in "name: " || x in c.name
          || x in "entries:";
      }
    }
  }

  lemma PackageField(c: Channel)
    requires c.package != ""
    ensures FieldIn(ChannelLines(c) + [""], "package" + ": ") == Some(c.package)
  {
    var lines := ChannelLines(c) + [""];
    assert "package" + ": " == "package: ";
    assert lines[0][0] == 's' && lines[1..][0] == "package: " + c.package;
    assert ("package: " + c.package)[..9] == "package: " && ("package: " + c.package)[9..] == c.package;
  }

  /** A written channel starts with its header, and every list of skipped entries has its own. */
  lemma WrittenHeader(c: Channel)
    requires CleanChannel(c)
    ensures var lines := Split(Rendered(c), '\n');
            && |lines| >= 4 && lines[0] == "schema: olm.channel" && lines[1] == "package: " + c.package
            && lines[2] == "name: " + c.name && lines[3] == "entries:"
            && ((exists e :: e in c.entries && e.skips != []) ==> "    skips:" in lines)
  {
    hide OneLine, PlainLine, Split, JoinLines, EntryLines;
    var lines := ChannelLines(c);
    ChannelLinesPlain(c);
    PlainLines(lines);
    SplitNewlines(lines);
    if e :| e in c.entries && e.skips != [] {
      SkipsAreHeaded(c.entries, e);
      assert forall l :: l in EntriesLines(c.entries) ==> l in lines;
    }
  }

  /** How an entry with a replaces edge and a skipped entry is written. */
  lemma WrittenEntry(name: string, predecessor: string, skip: string)
    requires predecessor != ""
    ensures EntryLines(Entry(name, Some(predecessor), [skip])) ==
            ["  - name: " + name, "    replaces: " + predecessor, "    skips:", "      - " + skip]
  {
    assert SkipLines([skip]) == ["      - " + skip];
  }

  /** Channels with ranges of skipped versions are refused. */
  lemma SkipRangeIsRefused(document: string, name: string, line: string, rest: string)
    requires line in Split(document, '\n') && line == "    skipRange:" + rest
    ensures ParsedChannel(document, name) == Failure(UnsupportedSkipRange)
  {
    assert line[..14] == SKIP_RANGE;
  }

  lemma {:induction false} SkipsAreHeaded(entries: seq<Entry>, e: Entry)
    requires e in entries && e.skips != []
    ensures "    skips:" in EntriesLines(entries)
  {
    if e == entries[0] {
      assert "    skips:" in EntryLines(e);
    } else {
      SkipsAreHeaded(entries[1..], e);
    }
  }

  // ----- the head -----

  function ReplacedNames(entries: seq<Entry>): set<string> {
    set e | e in entries && e.predecessor.Some? && e.predecessor.value != "" :: e.predecessor.value
  }

  function SkippedNames(entries: seq<Entry>): set<string> {
    set e, s | e in entries && s in e.skips :: s
  }

  /** The entries among `some` that nothing in the channel replaces or skips. */
  function Heads(some: seq<Entry>, superseded: set<string>): seq<Entry> {
    if some == [] then []
    else (if some[0].name !in superseded then [some[0]] else []) + Heads(some[1..], superseded)
  }

  /** The single head, none for an empty channel, an error when there is not exactly one. */
  function Head(c: Channel): Result<Option<Entry>, CatalogError> {
    if c.entries == [] then Success(None)
    else
      var heads := Heads(c.entries, ReplacedNames(c.entries) + SkippedNames(c.entries));
      if |heads| == 1 then Success(Some(heads[0])) else Failure(NotOneHead)
  }

  /** `i` is the only entry that no entry replaces or skips. */
  ghost predicate OnlyHead(entries: seq<Entry>, i: nat) {
    && i < |entries|
    && forall k :: 0 <= k < |entries| ==>
         (k != i <==> entries[k].name in ReplacedNames(entries) + SkippedNames(entries))
  }

  lemma {:induction false} HeadsFilter(some: seq<Entry>, superseded: set<string>, i: nat)
    requires i < |some| && forall k :: 0 <= k < |some| ==> (k != i <==> some[k].name in superseded)
    ensures Heads(some, superseded) == [some[i]]
  {
    if i == 0 {
      NoHeads(some[1..], superseded);
    } else {
      HeadsFilter(some[1..], superseded, i - 1);
    }
  }

  lemma {:induction false} NoHeads(some: seq<Entry>, superseded: set<string>)
    requires forall e :: e in some ==> e.name in superseded
    ensures Heads(some, superseded) == []
  {
    if some != [] {
      NoHeads(some[1..], superseded);
    }
  }

  /** With only one head, that is what the search returns. */
  lemma OnlyHeadIsHead(c: Channel, i: nat)
    requires OnlyHead(c.entries, i)
    ensures Head(c) == Success(Some(c.entries[i]))
  {
    HeadsFilter(c.entries, ReplacedNames(c.entries) + SkippedNames(c.entries), i);
  }

  /** A search with one result found the only entry that is not superseded. */
  lemma {:induction false} OneHeadIsOnly(some: seq<Entry>, superseded: set<string>) returns (i: nat)
    requires |Heads(some, superseded)| == 1
    ensures i < |some| && Heads(some, superseded) == [some[i]]
    ensures forall k :: 0 <= k < |some| ==> (k != i <==> some[k].name in superseded)
  {
    if some[0].name !in superseded {
      i := 0;
      NothingHeaded(some[1..], superseded);
    } else {
      var j := OneHeadIsOnly(some[1..], superseded);
      i := j + 1;
      assert forall k :: 0 < k < |some| ==> some[k] == some[1..][k - 1];
    }
  }

  lemma {:induction false} NothingHeaded(some: seq<Entry>, superseded: set<string>)
    requires Heads(some, superseded) == []
    ensures forall e :: e in some ==> e.name in superseded
  {
    if some != [] {
      NothingHeaded(some[1..], superseded);
    }
  }

  /** The head found is the only entry that none replaces or skips; a channel without entries has none. */
  lemma HeadMeans(c: Channel)
    ensures Head(c) == Success(None) <==> c.entries == []
    ensures Head(c).Success? && Head(c).value.Some? <==> exists i: nat :: OnlyHead(c.entries, i)
    ensures forall i: nat :: OnlyHead(c.entries, i) ==> Head(c) == Success(Some(c.entries[i]))
  {
    forall i: nat | OnlyHead(c.entries, i)
      ensures Head(c) == Success(Some(c.entries[i]))
    {
      OnlyHeadIsHead(c, i);
    }
    if Head(c).Success? && Head(c).value.Some? {
      var i := OneHeadIsOnly(c.entries, ReplacedNames(c.entries) + SkippedNames(c.entries));
      assert OnlyHead(c.entries, i);
    }
  }
}
