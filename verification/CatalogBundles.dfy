/**
 Bundle documents. A release has a file of its own; all nightly bundles share one
 file, whose documents are separated by a line of three hyphens.
 */
module CatalogBundles {
  import opened Wrappers
  import opened Text
  import opened SemVer
  import opened CatalogChannel

  const SEPARATOR := "\n---\n"

  function BundleName(version: string): string { PACKAGE_NAME + "." + version }

  function BundleLines(version: string, image: string): seq<string> {
    ["schema: olm.bundle",
     "name: " + BundleName(version),
     "package: " + PACKAGE_NAME,
     "image: " + image,
     "properties:",
     "  - type: olm.gvk",
     "    value:",
     "      group: operators.coreos.com",
     "      kind: ClusterServiceVersion",
     "      version: v1alpha1",
     "  - type: olm.package",
     "    value:",
     "      packageName: " + PACKAGE_NAME,
     "      version: " + version]
  }

  function BundleDocument(version: string, image: string): string {
    Join(BundleLines(version, image), '\n')
  }

  // ----- the separator -----

  /** No line of the document starts with a hyphen, and the last one is not empty. */
  ghost predicate CleanDocument(doc: string) {
    && doc != "" && doc[|doc| - 1] != '\n'
    && forall j :: 0 <= j < |doc| && doc[j] == '\n' ==> j + 1 < |doc| && doc[j + 1] != '-'
  }

  lemma CleanIsSeparable(doc: string)
    requires CleanDocument(doc)
    ensures Separable(doc, SEPARATOR)
  {
    forall k | 0 <= k < |doc|
      ensures !OccursAt(doc + SEPARATOR, SEPARATOR, k)
    {
      SeparatorStarts(doc + SEPARATOR, k);
    }
  }

  lemma SeparatorStarts(text: string, k: nat)
    ensures OccursAt(text, SEPARATOR, k) ==> text[k] == '\n' && text[k + 1] == '-'
  {
    if OccursAt(text, SEPARATOR, k) {
      assert text[k] == text[k..k + |SEPARATOR|][0] && text[k + 1] == text[k..k + |SEPARATOR|][1];
    }
  }

  lemma {:induction false} JoinEndsClean(docs: seq<string>)
    requires docs != [] && forall d :: d in docs ==> CleanDocument(d)
    ensures var text := JoinWith(docs, SEPARATOR); text != "" && text[|text| - 1] != '\n'
  {
    assert docs[0] in docs;
    if |docs| > 1 {
      JoinEndsClean(docs[1..]);
      var text, rest := JoinWith(docs, SEPARATOR), JoinWith(docs[1..], SEPARATOR);
      assert text[|text| - 1] == rest[|rest| - 1];
    }
  }

  // ----- the shared nightly file -----

  function WithoutTrailingNewlines(text: string): string {
    if text != "" && text[|text| - 1] == '\n' then WithoutTrailingNewlines(text[..|text| - 1]) else text
  }

  function NightlyDocuments(file: Option<string>): seq<string> {
    if file.None? then []
    else
      var text := WithoutTrailingNewlines(file.value);
      if text == "" then [] else SplitOn(text, SEPARATOR)
  }

  function NightlyFile(docs: seq<string>): string { JoinWith(docs, SEPARATOR) + "\n" }

  /** Writing documents and reading them again gives the same documents. */
  lemma NightlyRoundTrip(docs: seq<string>)
    requires docs != [] && forall d :: d in docs ==> CleanDocument(d)
    ensures NightlyDocuments(Some(NightlyFile(docs))) == docs
  {
    JoinEndsClean(docs);
    forall d | d in docs
      ensures Separable(d, SEPARATOR)
    {
      CleanIsSeparable(d);
    }
    assert |SEPARATOR| == 5;
    SplitJoinWith(docs, SEPARATOR);
    var text := JoinWith(docs, SEPARATOR);
    var file := NightlyFile(docs);
    assert file[..|file| - 1] == text && file[|file| - 1] == '\n';
    assert WithoutTrailingNewlines(text) == text;
  }

  // ----- what a bundle document says -----

  /** A value that can be written in a document: not empty and without newlines. */
  predicate Value(s: string) { s != "" && '\n' !in s }

  lemma FieldAt(lines: seq<string>, prefix: string, k: nat, value: string)
    requires k < |lines| && lines[k] == prefix + value && value != ""
    requires forall j :: 0 <= j < k ==> !StartsWith(lines[j], prefix)
    ensures FieldIn(lines, prefix) == Some(value)
    decreases k
  {
    assert (prefix + value)[..|prefix|] == prefix && (prefix + value)[|prefix|..] == value;
    if k > 0 {
      FieldAt(lines[1..], prefix, k - 1, value);
    }
  }

  lemma BundleLinesUnbroken(version: string, image: string)
    requires Value(version) && Value(image)
    ensures forall l :: l in BundleLines(version, image) ==> '\n' !in l && l != "" && l[0] != '-'
  {
    var lines := BundleLines(version, image);
    forall i | 0 <= i < |lines|
      ensures '\n' !in lines[i] && lines[i] != "" && lines[i][0] != '-'
    {
      if i == 1 {
        assert lines[i] == "name: " + (PACKAGE_NAME + "." + version);
      } else if i == 3 {
        assert lines[i] == "image: " + image;
      } else if i == 13 {
        assert lines[i] == "      version: " + version;
      }
    }
  }

  lemma BundleFields(version: string, image: string, tail: seq<string>)
    requires Value(version) && Value(image)
    ensures FieldIn(BundleLines(version, image) + tail, "name: ") == Some(BundleName(version))
    ensures FieldIn(BundleLines(version, image) + tail, "image: ") == Some(image)
  {
    var lines := BundleLines(version, image) + tail;
    assert lines[0][0] == 's' && lines[1][0] == 'n' && lines[2][0] == 'p';
    FieldAt(lines, "name: ", 1, BundleName(version));
    FieldAt(lines, "image: ", 3, image);
  }

  lemma BundleHeader(version: string, image: string)
    ensures FieldIn(BundleLines(version, image), "schema: ") == Some("olm.bundle")
    ensures FieldIn(BundleLines(version, image), "package: ") == Some("neteye-operator")
  {
    var lines := BundleLines(version, image);
    assert lines[0][0] == 's' && lines[1][0] == 'n' && lines[2][0] == 'p';
    assert lines[0] == "schema: " + "olm.bundle" && lines[2] == "package: " + "neteye-operator";
    FieldAt(lines, "schema: ", 0, "olm.bundle");
    FieldAt(lines, "package: ", 2, "neteye-operator");
  }

  /** The values written into a bundle document are the ones read from it. */
  lemma BundleSays(version: string, image: string)
    requires Value(version) && Value(image)
    ensures DocumentField(BundleDocument(version, image), "schema") == Some("olm.bundle")
    ensures DocumentField(BundleDocument(version, image), "name") == Some(BundleName(version))
    ensures BundleName(version) == "neteye-operator." + version
    ensures DocumentField(BundleDocument(version, image), "package") == Some("neteye-operator")
    ensures DocumentField(BundleDocument(version, image), "image") == Some(image)
    ensures DocumentField(BundleDocument(version, image) + "\n", "image") == Some(image)
  {
    hide Join, Split, FieldIn, BundleLines;
    var lines := BundleLines(version, image);
    BundleLinesUnbroken(version, image);
    BundleLinesNonempty(version, image);
    SplitJoin(lines, '\n');
    SplitTrailingNewline(lines);
    BundleFields(version, image, []);
    BundleFields(version, image, [""]);
    BundleHeader(version, image);
    assert "schema" + ": " == "schema: " && "package" + ": " == "package: ";
    assert lines + [] == lines;
    assert "name" + ": " == "name: " && "image" + ": " == "image: ";
  }

  /** What the document lists as provided: the kind of object the operator deploys by, and the package version. */
  lemma BundleProperties(version: string, image: string)
    requires Value(version) && Value(image)
    ensures |Split(BundleDocument(version, image), '\n')| == 14
    ensures Split(BundleDocument(version, image), '\n')[4..] ==
            ["properties:", "  - type: olm.gvk", "    value:", "      group: operators.coreos.com",
             "      kind: ClusterServiceVersion", "      version: v1alpha1", "  - type: olm.package", "    value:",
             "      packageName: neteye-operator", "      version: " + version]
  {
    hide Join, Split, BundleLines;
    BundleLinesUnbroken(version, image);
    BundleLinesNonempty(version, image);
    SplitJoin(BundleLines(version, image), '\n');
    LaterBundleLines(version, image);
  }

  lemma LaterBundleLines(version: string, image: string)
    ensures var lines := BundleLines(version, image);
            && |lines| == 14
            && lines[4..] ==
               ["properties:", "  - type: olm.gvk", "    value:", "      group: operators.coreos.com",
                "      kind: ClusterServiceVersion", "      version: v1alpha1", "  - type: olm.package", "    value:",
                "      packageName: neteye-operator", "      version: " + version]
  {
    assert "      packageName: " + PACKAGE_NAME == "      packageName: neteye-operator";
  }

  lemma BundleLinesNonempty(version: string, image: string)
    ensures BundleLines(version, image) != []
  {
  }

  lemma {:induction false} SplitTrailingNewline(lines: seq<string>)
    requires lines != [] && forall l :: l in lines ==> '\n' !in l
    ensures Split(Join(lines, '\n') + "\n", '\n') == lines + [""]
  {
    if |lines| == 1 {
      SplitOnce(lines[0], "", '\n');
      assert lines[0] + ['\n'] + "" == lines[0] + "\n";
      assert Split("", '\n') == [""];
    } else {
      SplitTrailingNewline(lines[1..]);
      SplitOnce(lines[0], Join(lines[1..], '\n') + "\n", '\n');
      assert Join(lines, '\n') + "\n" == lines[0] + ['\n'] + (Join(lines[1..], '\n') + "\n");
    }
  }

  lemma {:induction false} JoinIsClean(lines: seq<string>)
    requires lines != [] && forall l :: l in lines ==> '\n' !in l && l != "" && l[0] != '-'
    ensures CleanDocument(Join(lines, '\n')) && Join(lines, '\n')[0] != '-'
  {
    assert lines[0] in lines;
    if |lines| == 1 {
      var l := lines[0];
      assert forall j :: 0 <= j < |l| ==> l[j] in l;
    } else {
      assert forall l :: l in lines[1..] ==> l in lines;
      JoinIsClean(lines[1..]);
      var rest := Join(lines[1..], '\n');
      var doc := lines[0] + ['\n'] + rest;
      assert forall j :: 0 <= j < |lines[0]| ==> doc[j] == lines[0][j] && lines[0][j] in lines[0];
      assert forall j :: |lines[0]| < j < |doc| ==> doc[j] == rest[j - |lines[0]| - 1];
    }
  }

  lemma BundleIsClean(version: string, image: string)
    requires Value(version) && Value(image)
    ensures CleanDocument(BundleDocument(version, image)) && BundleDocument(version, image)[0] != '-'
  {
    hide Join, BundleLines;
    BundleLinesUnbroken(version, image);
    BundleLinesNonempty(version, image);
    JoinIsClean(BundleLines(version, image));
  }

  // ----- nightly versions -----

  predicate HexDigits(s: string) { forall c :: c in s ==> IsDigit(c) || 'a' <= c <= 'f' }

  const NIGHTLY_MARK := "-nightly-"

  predicate MarkAt(version: string, k: nat) {
    && k + |NIGHTLY_MARK| <= |version| && version[k..k + |NIGHTLY_MARK|] == NIGHTLY_MARK
    && 7 <= |version| - k - |NIGHTLY_MARK| <= 40 && HexDigits(version[k + |NIGHTLY_MARK|..])
  }

  /** The version ends in the nightly mark and a hash of 7 to 40 hexadecimal digits. */
  predicate IsNightly(version: string) {
    exists k :: 0 <= k <= |version| && MarkAt(version, k)
  }

  ghost predicate Hexadecimal(s: string) { forall c :: c in s ==> c in "0123456789abcdef" }

  lemma MarkedParts(version: string, k: nat)
    requires k <= |version| && MarkAt(version, k)
    ensures version == version[..k] + "-nightly-" + version[k + 9..]
    ensures 7 <= |version[k + 9..]| <= 40 && Hexadecimal(version[k + 9..])
  {
    assert version[k..k + 9] == "-nightly-";
    HexDigitsMean(version[k + 9..]);
  }

  lemma PartsAreMarked(prefix: string, hash: string)
    requires 7 <= |hash| <= 40 && Hexadecimal(hash)
    ensures var version := prefix + "-nightly-" + hash; MarkAt(version, |prefix|) && version[..|prefix|] == prefix
  {
    var version, k := prefix + "-nightly-" + hash, |prefix|;
    assert version[k..k + 9] == "-nightly-" && version[k + 9..] == hash;
    HexDigitsMean(hash);
  }

  lemma HexDigitsMean(s: string)
    ensures HexDigits(s) <==> Hexadecimal(s)
  {
    var digits := "0123456789abcdef";
    forall c | IsDigit(c) || 'a' <= c <= 'f'
      ensures c in digits
    {
      assert c == if IsDigit(c) then digits[c as int - '0' as int] else digits[c as int - 'a' as int + 10];
    }
  }

  /** A version is nightly when it ends in the mark and a hash of 7 to 40 hexadecimal digits. */
  lemma IsNightlyMeans(version: string)
    ensures IsNightly(version) <==>
              exists prefix, hash :: 7 <= |hash| <= 40 && Hexadecimal(hash) && version == prefix + "-nightly-" + hash
  {
    if IsNightly(version) {
      var k :| 0 <= k <= |version| && MarkAt(version, k);
      MarkedParts(version, k);
    }
    if prefix, hash :| 7 <= |hash| <= 40 && Hexadecimal(hash) && version == prefix + "-nightly-" + hash {
      PartsAreMarked(prefix, hash);
    }
  }

  // ----- a document added to any file -----

  /** The start of a separator without its last character. */
  const ALMOST := "\n---"

  lemma Separators()
    ensures SEPARATOR == ALMOST + "\n" && "---" + "\n" == SEPARATOR[1..] && |SEPARATOR| == 5 && |ALMOST| == 4
    ensures ALMOST == ['\n'] + "---" && SEPARATOR[0] == '\n' && SEPARATOR[4] == '\n'
    ensures SEPARATOR[1] == '-' && SEPARATOR[2] == '-' && SEPARATOR[3] == '-'
  {
  }

  predicate EndsAlmost(text: string) { |text| >= 4 && text[|text| - 4..] == ALMOST }

  /** Where the first separator is after a document was added to a text without one. */
  lemma FirstAfterAdding(text: string, doc: string)
    requires Find(text, SEPARATOR, 0) == |text|
    ensures Find(text + SEPARATOR + doc, SEPARATOR, 0) == if EndsAlmost(text) then |text| - 4 else |text|
  {
    FindIsFirst(text, SEPARATOR, 0);
    var longer := text + SEPARATOR + doc;
    var at := if EndsAlmost(text) then |text| - 4 else |text|;
    AddedSeparator(text, doc);
    forall i | 0 <= i < at
      ensures !OccursAt(longer, SEPARATOR, i)
    {
      NotBeforeAdded(text, doc, i);
    }
    FindIs(longer, SEPARATOR, 0, at);
  }

  lemma AddedSeparator(text: string, doc: string)
    ensures OccursAt(text + SEPARATOR + doc, SEPARATOR, |text|)
    ensures EndsAlmost(text) ==> OccursAt(text + SEPARATOR + doc, SEPARATOR, |text| - 4)
  {
    Separators();
    var longer := text + SEPARATOR + doc;
    assert longer[|text|..|text| + 5] == SEPARATOR;
    if EndsAlmost(text) {
      assert longer[|text| - 4..|text|] == text[|text| - 4..] && longer[|text|] == SEPARATOR[0];
      assert longer[|text| - 4..|text| + 1] == longer[|text| - 4..|text|] + [longer[|text|]];
    }
  }

  /** A separator that starts in the text and ends after it starts with all but its last character. */
  lemma OccursAcross(text: string, doc: string, i: nat)
    requires i < |text| < i + 5 && OccursAt(text + SEPARATOR + doc, SEPARATOR, i)
    ensures EndsAlmost(text) && i == |text| - 4
  {
    Separators();
    var longer := text + SEPARATOR + doc;
    var window := longer[i..i + 5];
    assert SEPARATOR[|text| - i] == window[|text| - i] == longer[|text|] == SEPARATOR[0];
    assert text[i..] == window[..4] == ALMOST;
  }

  lemma NotBeforeAdded(text: string, doc: string, i: nat)
    requires i < |text| && !OccursAt(text, SEPARATOR, i)
    requires EndsAlmost(text) ==> i < |text| - 4
    ensures !OccursAt(text + SEPARATOR + doc, SEPARATOR, i)
  {
    Separators();
    var longer := text + SEPARATOR + doc;
    if i + 5 <= |text| {
      assert longer[i..i + 5] == text[i..i + 5];
    } else if OccursAt(longer, SEPARATOR, i) {
      OccursAcross(text, doc, i);
    }
  }

  /** What a split says at the end of a file: the last piece, and what was added. */
  ghost predicate SplitsAs(before: seq<string>, after: seq<string>, doc: string) {
    || after == before + [doc]
    || exists last :: before != [] && before[|before| - 1] == last + ALMOST
                      && after == before[..|before| - 1] + [last, "---" + "\n" + doc]
  }

  lemma CleanIsWhole(doc: string)
    requires CleanDocument(doc) && doc[0] != '-'
    ensures SplitOn(doc, SEPARATOR) == [doc] && SplitOn("---" + "\n" + doc, SEPARATOR) == ["---" + "\n" + doc]
  {
    CleanIsSeparable(doc);
    FindsNone(doc, SEPARATOR, 0);
    var text := "---" + "\n" + doc;
    forall i | 0 <= i < |text|
      ensures !OccursAt(text, SEPARATOR, i)
    {
      SeparatorStarts(text, i);
      assert i >= 4 ==> text[i] == doc[i - 4];
    }
    FindIs(text, SEPARATOR, 0, |text|);
  }

  lemma FirstStays(text: string, more: string)
    requires Find(text, SEPARATOR, 0) < |text|
    ensures Find(text + more, SEPARATOR, 0) == Find(text, SEPARATOR, 0) <= |text| - 5
  {
    Separators();
    var k := Find(text, SEPARATOR, 0);
    FindIsFirst(text, SEPARATOR, 0);
    forall i | 0 <= i <= k
      ensures OccursAt(text + more, SEPARATOR, i) <==> OccursAt(text, SEPARATOR, i)
    {
      assert (text + more)[i..i + 5] == text[i..i + 5];
    }
    FindIs(text + more, SEPARATOR, 0, k);
  }

  lemma SplitFrom(text: string, k: nat)
    requires Find(text, SEPARATOR, 0) == k
    ensures SplitOn(text, SEPARATOR) == if k == |text| then [text] else [text[..k]] + SplitOn(text[k + 5..], SEPARATOR)
  {
    Separators();
  }

  /** Adding a document to any text adds it to the documents, except that a text may end in most of a separator. */
  lemma {:induction false} SplitAdded(text: string, doc: string)
    requires CleanDocument(doc) && doc[0] != '-'
    ensures SplitsAs(SplitOn(text, SEPARATOR), SplitOn(text + SEPARATOR + doc, SEPARATOR), doc)
    decreases |text|
  {
    hide SplitsAs, SplitOn, CleanDocument, Find;
    var k := Find(text, SEPARATOR, 0);
    SplitFrom(text, k);
    if k < |text| {
      var longer, rest := text + (SEPARATOR + doc), text[k + 5..];
      FirstStays(text, SEPARATOR + doc);
      SplitFrom(longer, k);
      assert text + SEPARATOR + doc == longer;
      assert longer[..k] == text[..k] && longer[k + 5..] == rest + SEPARATOR + doc;
      SplitAdded(rest, doc);
      SplitNotEmpty(rest);
      SplitsAsAfter(text[..k], SplitOn(rest, SEPARATOR), SplitOn(rest + SEPARATOR + doc, SEPARATOR), doc);
    } else {
      SplitAddedWhole(text, doc);
    }
  }

  lemma SplitNotEmpty(text: string)
    ensures SplitOn(text, SEPARATOR) != []
  {
  }

  lemma SplitAddedWhole(text: string, doc: string)
    requires CleanDocument(doc) && doc[0] != '-' && Find(text, SEPARATOR, 0) == |text|
    ensures SplitsAs([text], SplitOn(text + SEPARATOR + doc, SEPARATOR), doc)
  {
    hide SplitOn, CleanDocument, Find;
    Separators();
    var longer := text + SEPARATOR + doc;
    FirstAfterAdding(text, doc);
    CleanIsWhole(doc);
    if EndsAlmost(text) {
      var last := text[..|text| - 4];
      SplitFrom(longer, |text| - 4);
      assert longer[..|text| - 4] == last && longer[|text| - 4 + 5..] == "---" + "\n" + doc;
      assert text == last + ALMOST && [text][..0] == [];
    } else {
      SplitFrom(longer, |text|);
      assert longer[..|text|] == text && longer[|text| + 5..] == doc;
    }
  }

  lemma SplitsAsAfter(piece: string, before: seq<string>, after: seq<string>, doc: string)
    requires SplitsAs(before, after, doc) && before != []
    ensures SplitsAs([piece] + before, [piece] + after, doc)
  {
    if after == before + [doc] {
      assert [piece] + after == ([piece] + before) + [doc];
    } else {
      var last :| before[|before| - 1] == last + ALMOST
                  && after == before[..|before| - 1] + [last, "---" + "\n" + doc];
      var longer := [piece] + before;
      assert longer[..|longer| - 1] == [piece] + before[..|before| - 1];
      assert [piece] + after == longer[..|longer| - 1] + [last, "---" + "\n" + doc];
    }
  }

  /** The images that documents of the given name say. */
  function Said(docs: seq<string>, name: string): seq<Option<string>> {
    if docs == [] then []
    else Saying(docs[0], name) + Said(docs[1..], name)
  }

  function Saying(doc: string, name: string): seq<Option<string>> {
    if DocumentField(doc, "name") == Some(name) then [DocumentField(doc, "image")] else []
  }

  lemma {:induction false} SaidTogether(docs: seq<string>, more: seq<string>, name: string)
    ensures Said(docs + more, name) == Said(docs, name) + Said(more, name)
  {
    hide Saying;
    if docs == [] {
      assert docs + more == more;
    } else {
      SaidTogether(docs[1..], more, name);
      assert (docs + more)[1..] == docs[1..] + more;
    }
  }

  lemma {:induction false} FieldTogether(lines: seq<string>, more: seq<string>, prefix: string)
    ensures FieldIn(lines + more, prefix)
            == if FieldIn(lines, prefix).Some? then FieldIn(lines, prefix) else FieldIn(more, prefix)
  {
    if lines == [] {
      assert lines + more == more;
    } else {
      FieldTogether(lines[1..], more, prefix);
      assert (lines + more)[1..] == lines[1..] + more;
    }
  }

  lemma StartsAlike(text: string, prefix: string)
    requires StartsWith(text, prefix) && prefix != ""
    ensures text[0] == prefix[0]
  {
    assert text[..|prefix|][0] == prefix[0];
  }

  lemma NoFieldInHyphens(prefix: string)
    requires prefix != "" && prefix[0] != '-'
    ensures FieldIn(["---"], prefix) == None && Split("---", '\n') == ["---"]
  {
    SplitNone("---", '\n');
    assert ["---"][1..] == [];
    if StartsWith("---", prefix) {
      StartsAlike("---", prefix);
    }
  }

  /** A line of hyphens more or less changes no field. */
  lemma HyphensSayNothing(text: string, name: string)
    requires name != "" && name[0] != '-'
    ensures DocumentField(text + ALMOST, name) == DocumentField(text, name)
    ensures DocumentField("---" + "\n" + text, name) == DocumentField(text, name)
  {
    Separators();
    var prefix := name + ": ";
    NoFieldInHyphens(prefix);
    SplitAt(text, "---", '\n');
    assert text + ALMOST == text + ['\n'] + "---";
    FieldTogether(Split(text, '\n'), ["---"], prefix);
    SplitAt("---", text, '\n');
    assert "---" + "\n" + text == "---" + ['\n'] + text;
    FieldTogether(["---"], Split(text, '\n'), prefix);
  }

  lemma SameSaying(doc: string, other: string, name: string)
    requires forall field :: field == "name" || field == "image" ==>
               DocumentField(doc, field) == DocumentField(other, field)
    ensures Saying(doc, name) == Saying(other, name)
  {
    hide DocumentField;
  }

  lemma SplitSays(before: seq<string>, after: seq<string>, doc: string, name: string)
    requires SplitsAs(before, after, doc)
    ensures Said(after, name) == Said(before, name) + Saying(doc, name)
  {
    hide Saying, Said;
    if after == before + [doc] {
      SaysAlone(doc, name);
      SaidTogether(before, [doc], name);
    } else {
      var last :| before != [] && before[|before| - 1] == last + ALMOST
                  && after == before[..|before| - 1] + [last, "---" + "\n" + doc];
      var first := before[..|before| - 1];
      assert before == first + [last + ALMOST];
      CutSays(first, last, doc, name);
    }
  }

  lemma CutSays(first: seq<string>, last: string, doc: string, name: string)
    ensures Said(first + [last, "---" + "\n" + doc], name)
            == Said(first + [last + ALMOST], name) + Saying(doc, name)
  {
    hide Saying, Said, DocumentField;
    var whole, hyphens := last + ALMOST, "---" + "\n" + doc;
    assert first + [last, hyphens] == first + [last] + [hyphens];
    SaidTogether(first, [whole], name);
    SaidTogether(first + [last], [hyphens], name);
    SaidTogether(first, [last], name);
    SaysAlone(whole, name);
    SaysAlone(last, name);
    SaysAlone(hyphens, name);
    forall field | field == "name" || field == "image"
      ensures DocumentField(whole, field) == DocumentField(last, field)
      ensures DocumentField(hyphens, field) == DocumentField(doc, field)
    {
      HyphensSayNothing(last, field);
      HyphensSayNothing(doc, field);
    }
    SameSaying(whole, last, name);
    SameSaying(hyphens, doc, name);
  }

  lemma SaysAlone(doc: string, name: string)
    ensures Said([doc], name) == Saying(doc, name)
  {
    assert [doc][1..] == [];
    assert Said([], name) == [];
  }

  /**
   Whatever the shared file held before, rewriting it with one more document leaves
   under each name the images that were there, and the new one under its own.
   */
  lemma AddedDocumentSays(file: Option<string>, doc: string, name: string)
    requires CleanDocument(doc) && doc[0] != '-'
    ensures Said(NightlyDocuments(Some(NightlyFile(NightlyDocuments(file) + [doc]))), name)
            == Said(NightlyDocuments(file), name) + Saying(doc, name)
  {
    hide Said, Saying, SplitsAs;
    var docs := NightlyDocuments(file);
    var added := NightlyFile(docs + [doc]);
    if docs == [] {
      assert docs + [doc] == [doc];
      ReadsAgain(doc);
      CleanIsWhole(doc);
      SaysAlone(doc, name);
      NothingSaid(name);
    } else {
      var text := WithoutTrailingNewlines(file.value);
      JoinSplitOn(text, SEPARATOR);
      JoinWithLast(docs, doc, SEPARATOR);
      ReadsAgain(text + SEPARATOR + doc);
      assert added == text + SEPARATOR + doc + "\n";
      SplitAdded(text, doc);
      SplitSays(docs, NightlyDocuments(Some(added)), doc, name);
    }
  }

  lemma NothingSaid(name: string)
    ensures Said([], name) == []
  {
  }

  lemma ReadsAgain(text: string)
    requires text != "" && text[|text| - 1] != '\n'
    ensures NightlyDocuments(Some(text + "\n")) == SplitOn(text, SEPARATOR)
  {
    assert (text + "\n")[..|text|] == text;
    assert WithoutTrailingNewlines(text) == text;
  }

  // ----- recorded images -----

  /** The documents that carry the given bundle name. */
  function Named(docs: seq<string>, name: string): seq<string> {
    if docs == [] then []
    else (if DocumentField(docs[0], "name") == Some(name) then [docs[0]] else []) + Named(docs[1..], name)
  }

  function ImageOf(document: string): Result<Option<string>, CatalogError> {
    var image := DocumentField(document, "image");
    if image.None? then Failure(BundleWithoutImage) else Success(image)
  }

  /** One image from what is said, none from nothing, and an error otherwise. */
  function OneSaid(said: seq<Option<string>>): Result<Option<string>, CatalogError> {
    if said == [] then Success(None)
    else if |said| > 1 then Failure(AmbiguousBundle)
    else if said[0].None? then Failure(BundleWithoutImage)
    else Success(said[0])
  }

  /** The image read for a nightly version is the one that is said. */
  lemma ImageIsSaid(bundles: map<string, string>, nightly: Option<string>, version: string)
    requires IsNightly(version)
    ensures BundleImage(bundles, nightly, version) == OneSaid(Said(NightlyDocuments(nightly), BundleName(version)))
  {
    NamedAreSaid(NightlyDocuments(nightly), BundleName(version));
  }

  lemma {:induction false} NamedAreSaid(docs: seq<string>, name: string)
    ensures |Named(docs, name)| == |Said(docs, name)|
    ensures forall i :: 0 <= i < |Named(docs, name)| ==>
              DocumentField(Named(docs, name)[i], "image") == Said(docs, name)[i]
  {
    hide DocumentField;
    if docs != [] {
      NamedAreSaid(docs[1..], name);
    }
  }

  function BundleImage(bundles: map<string, string>, nightly: Option<string>, version: string)
    : Result<Option<string>, CatalogError>
  {
    if IsNightly(version) then
      var docs := Named(NightlyDocuments(nightly), BundleName(version));
      if docs == [] then Success(None)
      else if |docs| > 1 then Failure(AmbiguousBundle)
      else ImageOf(docs[0])
    else if version !in bundles then Success(None)
    else ImageOf(bundles[version])
  }

  lemma BundleNameInjective(a: string, b: string)
    requires BundleName(a) == BundleName(b)
    ensures a == b
  {
    assert BundleName(a)[|PACKAGE_NAME| + 1..] == a && BundleName(b)[|PACKAGE_NAME| + 1..] == b;
  }
}
