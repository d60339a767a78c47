/**
 The files of the catalog as one state, what each command makes of it, and what every
 run of commands keeps.
 */
module CatalogState {
  import opened Wrappers
  import opened Sequences
  import opened Text
  import opened SemVer
  import opened CatalogChannel
  import opened CatalogBundles
  import opened CatalogRelease
  import opened CatalogNightly

  const REGISTRY := "ghcr.io/neteye-platform/"
  const REPOSITORY := "neteye-operator-bundle"
  const RELEASE_IMAGE := REGISTRY + REPOSITORY + "@sha256:"
  const NIGHTLY_IMAGE := REGISTRY + REPOSITORY + ":"

  lemma PrefixesAreValues()
    ensures '\n' !in RELEASE_IMAGE && '\n' !in NIGHTLY_IMAGE
  {
    assert '\n' !in REGISTRY && '\n' !in REPOSITORY && '\n' !in "@sha256:" && '\n' !in ":";
    assert forall c :: c in RELEASE_IMAGE ==> c in REGISTRY || c in REPOSITORY || c in "@sha256:";
    assert forall c :: c in NIGHTLY_IMAGE ==> c in REGISTRY || c in REPOSITORY || c in ":";
  }

  /** A release image, pinned by digest. */
  predicate PinnedImage(image: string) {
    && StartsWith(image, RELEASE_IMAGE) && |image| == |RELEASE_IMAGE| + 64
    && HexDigits(image[|RELEASE_IMAGE|..])
  }

  lemma PinnedImageValue(image: string)
    requires PinnedImage(image)
    ensures Value(image)
  {
    var digits := image[|RELEASE_IMAGE|..];
    PrefixesAreValues();
    assert image == RELEASE_IMAGE + digits;
    assert forall c :: c in digits ==> IsDigit(c) || 'a' <= c <= 'f';
  }

  /** A nightly image, named by its tag. */
  predicate NightlyImage(image: string) {
    StartsWith(image, NIGHTLY_IMAGE) && NightlyTag(TagOf(image))
  }

  function TagOf(image: string): string {
    if StartsWith(image, NIGHTLY_IMAGE) then image[|NIGHTLY_IMAGE|..] else ""
  }

  lemma NightlyImageValue(image: string)
    requires NightlyImage(image)
    ensures Value(image)
  {
    PrefixesAreValues();
    NightlyTagIsToken(TagOf(image));
    assert image == NIGHTLY_IMAGE + TagOf(image);
  }

  /** A release image is the repository with the SHA-256 digest of the bundle. */
  lemma PinnedImageMeans(image: string)
    ensures PinnedImage(image) <==>
              exists digest :: |digest| == 64 && Hexadecimal(digest)
                && image == "ghcr.io/neteye-platform/neteye-operator-bundle@sha256:" + digest
  {
    ReleasePrefix();
    if PinnedImage(image) {
      assert image == RELEASE_IMAGE + image[|RELEASE_IMAGE|..];
      assert Hexadecimal(image[|RELEASE_IMAGE|..]);
    }
    if digest :| |digest| == 64 && Hexadecimal(digest) && image == RELEASE_IMAGE + digest {
      assert image[|RELEASE_IMAGE|..] == digest;
    }
  }

  lemma ReleasePrefix()
    ensures RELEASE_IMAGE == "ghcr.io/neteye-platform/neteye-operator-bundle@sha256:"
  {
  }

  lemma NightlyPrefix()
    ensures NIGHTLY_IMAGE == "ghcr.io/neteye-platform/neteye-operator-bundle:"
  {
  }

  lemma NightlyImageParts(image: string) returns (version: string, hash: string)
    requires NightlyImage(image)
    ensures ValidSemver(version) && 7 <= |hash| <= 40 && Hexadecimal(hash)
    ensures image == NIGHTLY_IMAGE + (version + "-nightly-" + hash) == NIGHTLY_IMAGE + TagOf(image)
  {
    hide ValidSemver, MarkAt, Hexadecimal;
    var tag := TagOf(image);
    var k :| 0 <= k <= |tag| && MarkAt(tag, k) && ValidSemver(tag[..k]);
    version, hash := tag[..k], NightlyHash(tag, k);
    assert image == NIGHTLY_IMAGE + tag;
  }

  function NightlyHash(tag: string, k: nat): (hash: string)
    requires k <= |tag| && MarkAt(tag, k)
    ensures tag == tag[..k] + "-nightly-" + hash && 7 <= |hash| <= 40 && Hexadecimal(hash)
  {
    MarkedParts(tag, k);
    tag[k + 9..]
  }

  lemma NightlyImageOf(version: string, hash: string)
    requires ValidSemver(version) && 7 <= |hash| <= 40 && Hexadecimal(hash)
    ensures NightlyImage(NIGHTLY_IMAGE + (version + "-nightly-" + hash))
  {
    hide ValidSemver, MarkAt, Hexadecimal;
    var tag := version + "-nightly-" + hash;
    assert (NIGHTLY_IMAGE + tag)[|NIGHTLY_IMAGE|..] == tag && StartsWith(NIGHTLY_IMAGE + tag, NIGHTLY_IMAGE);
    PartsAreMarked(version, hash);
  }

  /** A nightly image is the repository with a tag: an accepted version, the nightly mark and a hash. */
  lemma NightlyImageMeans(image: string)
    ensures NightlyImage(image) <==>
              exists version, hash :: ValidSemver(version) && 7 <= |hash| <= 40 && Hexadecimal(hash)
                && image == "ghcr.io/neteye-platform/neteye-operator-bundle:" + (version + "-nightly-" + hash)
    ensures NightlyImage(image) ==> image == "ghcr.io/neteye-platform/neteye-operator-bundle:" + TagOf(image)
  {
    hide ValidSemver, Hexadecimal, NightlyImage, TagOf;
    NightlyPrefix();
    if NightlyImage(image) {
      var version, hash := NightlyImageParts(image);
    }
    if version, hash :| ValidSemver(version) && 7 <= |hash| <= 40 && Hexadecimal(hash)
                        && image == NIGHTLY_IMAGE + (version + "-nightly-" + hash) {
      NightlyImageOf(version, hash);
    }
  }

  // ----- the files -----

  /**
   The default channels named in the package file, absent when there is no such file;
   the text of each channel file by channel name, and of each release bundle file by
   version; and the text of the file all nightly bundles share.
   */
  datatype Files = Files(
    package: Option<seq<string>>, channels: map<string, string>, bundles: map<string, string>,
    nightly: Option<string>)

  datatype Command =
    | Release(version: string, image: string, neteye: Option<string>)
    | Backport(version: string, image: string)
    | Nightly(build: string, line: string)

  function Image(s: Files, version: string): Result<Option<string>, CatalogError> {
    BundleImage(s.bundles, s.nightly, version)
  }

  /** The channel to add a release to: the one on file, or an empty one. */
  function ChannelFor(channels: map<string, string>, name: string): Result<Channel, CatalogError> {
    if name in channels then ParsedChannel(channels[name], name) else Success(Channel(name, [], PACKAGE_NAME))
  }

  function ReleaseChannelName(version: string, neteye: Option<string>): string {
    if neteye.Some? && neteye.value != "" then neteye.value + "-stable"
    else if '-' in version then "alpha"
    else "stable"
  }

  /** The new text of a channel file after a backport, none when it is not concerned. */
  function BackportedText(name: string, text: string, version: string): Result<Option<string>, CatalogError>
    requires ValidSemver(version)
  {
    var parsed := ParsedChannel(text, name);
    if parsed.Failure? then Failure(parsed.error)
    else
      var longer := Backported(parsed.value, version);
      if longer.Failure? then Failure(longer.error)
      else if longer.value.None? then Success(None)
      else Success(Some(Rendered(longer.value.value)))
  }

  // ----- what is accepted -----

  /** What a release is accepted for: a new bundle, and a channel it can go on top of. */
  predicate ReleaseAccepted(s: Files, version: string, image: string, neteye: Option<string>) {
    && ValidSemver(version) && PinnedImage(image) && s.package.Some?
    && Image(s, version) == Success(None)
    && ChannelFor(s.channels, ReleaseChannelName(version, neteye)).Success?
    && Promoted(ChannelFor(s.channels, ReleaseChannelName(version, neteye)).value, version).Success?
  }

  /** The bundle is there with this very image. */
  predicate AlreadyRecorded(s: Files, version: string, image: string) {
    ValidSemver(version) && PinnedImage(image) && Image(s, version) == Success(Some(image))
  }

  /** A new bundle, no channel that refuses it, and some channel it concerns. */
  predicate BackportAccepted(s: Files, version: string, image: string) {
    && ValidSemver(version) && PinnedImage(image)
    && Image(s, version) == Success(None)
    && (forall name :: name in s.channels ==> BackportedText(name, s.channels[name], version).Success?)
    && (exists name :: name in s.channels && BackportedText(name, s.channels[name], version) != Success(None))
  }

  /** A nightly image, a channel file that can be read, and at most one bundle to be read under its tag. */
  predicate NightlyAccepted(s: Files, build: string, line: string) {
    NightlyImage(build) && Readable(s.channels, line + "-nightly") && Image(s, TagOf(build)).Success?
  }

  // ----- what a command leaves -----

  function WithBundle(s: Files, version: string, image: string): Files {
    var doc := BundleDocument(version, image);
    if IsNightly(version) then s.(nightly := Some(NightlyFile(NightlyDocuments(s.nightly) + [doc])))
    else s.(bundles := s.bundles[version := doc + "\n"])
  }

  function NewText(name: string, text: string, version: string): string
    requires ValidSemver(version)
  {
    var longer := BackportedText(name, text, version);
    if longer.Success? && longer.value.Some? then longer.value.value else text
  }

  function AfterRelease(s: Files, version: string, image: string, neteye: Option<string>): Files {
    if !ReleaseAccepted(s, version, image, neteye) then s
    else
      var name := ReleaseChannelName(version, neteye);
      var text := Rendered(Promoted(ChannelFor(s.channels, name).value, version).value);
      var t := WithBundle(s.(channels := s.channels[name := text]), version, image);
      if neteye.Some? && neteye.value != "" && |s.package.value| == 1 then t.(package := Some([name])) else t
  }

  function AfterBackport(s: Files, version: string, image: string): Files {
    if !BackportAccepted(s, version, image) then s
    else
      var channels := map name | name in s.channels :: NewText(name, s.channels[name], version);
      WithBundle(s.(channels := channels), version, image)
  }

  /** The channel is written before the bundles are looked at, and stays when those cannot be read. */
  function AfterNightly(s: Files, build: string, line: string): Files {
    var name, tag := line + "-nightly", TagOf(build);
    if !NightlyImage(build) || ChannelFor(s.channels, name).Failure? then s
    else
      var t := s.(channels := s.channels[name := NightlyText(s.channels, name, tag)]);
      if Image(s, tag) == Success(None) then WithBundle(t, tag, build) else t
  }

  function NightlyText(channels: map<string, string>, name: string, tag: string): string
    requires ChannelFor(channels, name).Success?
  {
    Rendered(NightlyChannel(ChannelFor(channels, name).value, name, tag))
  }

  function Next(s: Files, command: Command): Files {
    match command
    case Release(version, image, neteye) => AfterRelease(s, version, image, neteye)
    case Backport(version, image) => AfterBackport(s, version, image)
    case Nightly(build, line) => AfterNightly(s, build, line)
  }

  /** The state after each command in turn, accepted or not. */
  function Run(s: Files, commands: seq<Command>): Files {
    if commands == [] then s else Next(Run(s, commands[..|commands| - 1]), commands[|commands| - 1])
  }

  // ----- what that means for the files -----

  /** The entries read from a channel file, none when there is no such file. */
  function EntriesIn(channels: map<string, string>, name: string): seq<Entry> {
    if name in channels && ParsedChannel(channels[name], name).Success?
    then ParsedChannel(channels[name], name).value.entries
    else []
  }

  function PackageIn(channels: map<string, string>, name: string): string {
    if name in channels && ParsedChannel(channels[name], name).Success?
    then ParsedChannel(channels[name], name).value.package
    else "neteye-operator"
  }

  /** The channel file, if there is one, can be read. */
  predicate Readable(channels: map<string, string>, name: string) {
    name in channels ==> ParsedChannel(channels[name], name).Success?
  }

  /**
   The file of the channel could be read, and reads back with an entry for `version` on
   top (unless the channel or its package are named with a line break).
   */
  ghost predicate ReleaseOnTop(before: map<string, string>, after: map<string, string>, name: string,
                               version: string) {
    && name in after && Readable(before, name)
    && (OneLine(name) && OneLine(PackageIn(before, name)) ==>
          var read := ParsedChannel(after[name], name);
          && read.Success? && read.value == Channel(name, read.value.entries, PackageIn(before, name))
          && OnTop(EntriesIn(before, name), version, read.value.entries))
  }

  /** The file of the channel could be read, and reads back rewritten for the nightly build. */
  ghost predicate NightlyOnTop(before: map<string, string>, after: map<string, string>, name: string, tag: string) {
    && name in after && Readable(before, name)
    && (OneLine(name) ==>
          var read := ParsedChannel(after[name], name);
          && read.Success? && read.value == Channel(name, read.value.entries, "neteye-operator")
          && NewestLast(EntriesIn(before, name), read.value.entries, "neteye-operator." + tag))
  }

  /** The image can be read under the version, and every other one as before. */
  ghost predicate Recorded(s: Files, t: Files, version: string, image: string) {
    Image(t, version) == Success(Some(image)) && forall v :: v != version ==> Image(t, v) == Image(s, v)
  }

  /** The files differ at most in this channel and in the bundles. */
  ghost predicate OnlyChannel(s: Files, t: Files, name: string) {
    && name in t.channels && t.channels.Keys == s.channels.Keys + {name}
    && forall other :: other in s.channels && other != name ==> t.channels[other] == s.channels[other]
  }

  /** The release is recorded, and on top of one channel, named by the release line or the kind of version. */
  ghost predicate ReleaseAdded(s: Files, t: Files, version: string, image: string, neteye: Option<string>) {
    && Recorded(s, t, version, image)
    && exists name :: OnlyChannel(s, t, name) && ReleaseOnTop(s.channels, t.channels, name, version)
         && ReleaseChannel(name, version, neteye)
  }

  /** The channel of a release is named by the release line if one is given, else by the kind of version. */
  ghost predicate ReleaseChannel(name: string, version: string, neteye: Option<string>) {
    && (neteye.Some? && neteye.value != "" ==> name == neteye.value + "-stable")
    && (neteye.None? || neteye.value == "" ==> name == if '-' in version then "alpha" else "stable")
  }

  /** The channel can be read, has only other releases as entries, and is empty or has one head, which is older. */
  ghost predicate TakesRelease(channels: map<string, string>, name: string, version: string)
    requires ValidSemver(version)
  {
    var entries := EntriesIn(channels, name);
    && Readable(channels, name) && ValidEntryVersions(entries)
    && (forall e :: e in entries ==> e.name != "neteye-operator." + version)
    && (entries == [] || NewerThanHead(entries, version))
  }

  /** The channel can be read, and is empty, or has one head, on another minor line or older. */
  ghost predicate AllowsBackport(channels: map<string, string>, name: string, version: string)
    requires ValidSemver(version)
  {
    var entries := EntriesIn(channels, name);
    && Readable(channels, name)
    && (entries != [] ==>
          && ValidEntryVersions(entries)
          && (OffLineOfHead(entries, version) || (OnLineOfHead(entries, version) && NewerThanHead(entries, version))))
  }

  /** The channel has one head, on the minor line of `version`, and only releases as entries. */
  ghost predicate OnSameLine(channels: map<string, string>, name: string, version: string)
    requires ValidSemver(version)
  {
    ValidEntryVersions(EntriesIn(channels, name)) && OnLineOfHead(EntriesIn(channels, name), version)
  }

  /** The bugfix release is recorded, and on top of exactly the channels on its minor line, at least one. */
  ghost predicate BackportAdded(s: Files, t: Files, version: string, image: string)
    requires ValidSemver(version)
  {
    && Recorded(s, t, version, image) && t.package == s.package && t.channels.Keys == s.channels.Keys
    && (forall name :: name in s.channels ==>
          if OnSameLine(s.channels, name, version) then ReleaseOnTop(s.channels, t.channels, name, version)
          else t.channels[name] == s.channels[name])
    && exists name :: name in s.channels && OnSameLine(s.channels, name, version)
  }

  /** The build is on top of the nightly channel of its line, and recorded when no bundle was. */
  ghost predicate NightlyAdded(s: Files, t: Files, tag: string, build: string, line: string) {
    && OnlyChannel(s, t, line + "-nightly") && NightlyOnTop(s.channels, t.channels, line + "-nightly", tag)
    && t.package == s.package
    && (Image(s, tag) == Success(None) ==> Recorded(s, t, tag, build))
    && (Image(s, tag) != Success(None) ==> t.bundles == s.bundles && t.nightly == s.nightly)
  }

  // ----- what every run keeps -----

  ghost predicate NightlySound(nightly: Option<string>) {
    nightly.Some? ==>
      exists docs :: docs != [] && (forall d :: d in docs ==> CleanDocument(d)) && nightly.value == NightlyFile(docs)
  }

  /** The edges of the entry lead to entries of the channel. */
  predicate EdgesWithin(entries: seq<Entry>, e: Entry) {
    && (e.predecessor.Some? ==> e.predecessor.value in NameSet(entries))
    && (forall n :: n in e.skips ==> n in NameSet(entries))
  }

  /** Distinct names, edges that stay within, and no other head than the last entry. */
  ghost predicate OneHeaded(entries: seq<Entry>) {
    && entries != [] && (forall i, j :: 0 <= i < j < |entries| ==> entries[i].name != entries[j].name)
    && (forall e :: e in entries ==> EdgesWithin(entries, e))
    && OnlyHead(entries, |entries| - 1)
  }

  predicate NightlyName(name: string) { |name| >= 8 && name[|name| - 8..] == "-nightly" }

  /** The file of a channel, as the commands write it. */
  ghost predicate ChannelFile(name: string, text: string, entries: seq<Entry>) {
    && CleanChannel(Channel(name, entries, PACKAGE_NAME)) && text == Rendered(Channel(name, entries, PACKAGE_NAME))
    && OneHeaded(entries) && (!NightlyName(name) ==> ReleasePath(entries))
  }

  /** The bundle of the entry is recorded. */
  predicate EntryRecorded(s: Files, e: Entry) {
    && e.name == BundleName(VersionOf(e.name))
    && Image(s, VersionOf(e.name)).Success? && Image(s, VersionOf(e.name)).value.Some?
  }

  ghost predicate SoundChannel(s: Files, name: string, text: string) {
    exists entries :: ChannelFile(name, text, entries) && forall e :: e in entries ==> EntryRecorded(s, e)
  }

  /**
   Every channel file is one the commands write, all its bundles are recorded, and no
   bundle is recorded twice or without its image.
   */
  ghost predicate Sound(s: Files) {
    && (forall name :: name in s.channels ==> SoundChannel(s, name, s.channels[name]))
    && NightlySound(s.nightly) && forall v :: Image(s, v).Success?
  }

  /** Every image recorded before is still the one recorded. */
  ghost predicate ImagesKept(s: Files, t: Files) {
    forall v, i :: Image(s, v) == Success(Some(i)) ==> Image(t, v) == Success(Some(i))
  }

  /** The release line named in a command does not break the line it is written in. */
  predicate Writable(command: Command) {
    match command
    case Release(_, _, neteye) => neteye.Some? ==> OneLine(neteye.value)
    case Backport(_, _) => true
    case Nightly(_, line) => OneLine(line)
  }

  // ----- bundles -----

  lemma AddedKeepsSound(nightly: Option<string>, doc: string)
    requires NightlySound(nightly) && CleanDocument(doc)
    ensures NightlySound(Some(NightlyFile(NightlyDocuments(nightly) + [doc])))
  {
    var docs := NightlyDocuments(nightly);
    if nightly.Some? {
      var written :| written != [] && (forall d :: d in written ==> CleanDocument(d))
                     && nightly.value == NightlyFile(written);
      NightlyRoundTrip(written);
    }
    assert docs + [doc] != [] && forall d :: d in docs + [doc] ==> CleanDocument(d);
  }

  /**
   Recording a new bundle makes its image readable and leaves every other one as it is,
   whatever the shared file of nightly bundles held.
   */
  lemma BundleRecorded(s: Files, version: string, image: string)
    requires Value(version) && Value(image)
    ensures var t := WithBundle(s, version, image);
            && (NightlySound(s.nightly) ==> NightlySound(t.nightly))
            && t.channels == s.channels && t.package == s.package
            && (Image(s, version) == Success(None) ==> Image(t, version) == Success(Some(image)))
            && forall v :: v != version ==> Image(t, v) == Image(s, v)
  {
    hide BundleDocument, BundleName, DocumentField, NightlySound, IsNightly, NightlyDocuments, NightlyFile, Said;
    BundleSays(version, image);
    BundleIsClean(version, image);
    var t := WithBundle(s, version, image);
    if IsNightly(version) {
      if NightlySound(s.nightly) {
        AddedKeepsSound(s.nightly, BundleDocument(version, image));
      }
      NightlyRecorded(s, version, image, version);
      forall v | v != version
        ensures Image(t, v) == Image(s, v)
      {
        if IsNightly(v) {
          if BundleName(v) == BundleName(version) { BundleNameInjective(v, version); }
          NightlyRecorded(s, version, image, v);
        }
      }
    }
  }

  /** Only the file of that bundle is written, and it ends with a newline. */
  lemma WrittenFileEnds(s: Files, version: string, image: string)
    ensures var t := WithBundle(s, version, image);
            if IsNightly(version)
            then t == s.(nightly := t.nightly) && t.nightly.Some? && LastIsNewline(t.nightly.value)
            else
              && t == s.(bundles := t.bundles) && t.bundles.Keys == s.bundles.Keys + {version}
              && LastIsNewline(t.bundles[version])
              && forall v :: v in s.bundles && v != version ==> t.bundles[v] == s.bundles[v]
  {
    hide BundleDocument, IsNightly, NightlyDocuments;
  }

  predicate LastIsNewline(text: string) { text != "" && text[|text| - 1] == '\n' }

  /** What a nightly bundle that is recorded adds to what is said under a name. */
  lemma NightlyRecorded(s: Files, version: string, image: string, v: string)
    requires Value(version) && Value(image) && IsNightly(version) && IsNightly(v)
    ensures var t, said := WithBundle(s, version, image), Said(NightlyDocuments(s.nightly), BundleName(v));
            && Image(s, v) == OneSaid(said)
            && Image(t, v) == OneSaid(if BundleName(v) == BundleName(version) then said + [Some(image)] else said)
  {
    hide BundleDocument, BundleName, DocumentField, IsNightly, NightlyDocuments, NightlyFile, Said, OneSaid,
         BundleImage;
    var t := WithBundle(s, version, image);
    BundleSays(version, image);
    BundleIsClean(version, image);
    AddedDocumentSays(s.nightly, BundleDocument(version, image), BundleName(v));
    ImageIsSaid(s.bundles, s.nightly, v);
    ImageIsSaid(t.bundles, t.nightly, v);
    var said := Said(NightlyDocuments(s.nightly), BundleName(v));
    assert said + [] == said;
  }

  /** A new bundle, recorded in a state whose bundles can be read, next to a change of the channels. */
  lemma NewBundleKeeps(s: Files, channels: map<string, string>, version: string, image: string)
    requires Value(version) && Value(image) && Image(s, version) == Success(None)
    requires forall v :: Image(s, v).Success?
    ensures var t := WithBundle(s.(channels := channels), version, image);
            && (NightlySound(s.nightly) ==> NightlySound(t.nightly)) && (forall v :: Image(t, v).Success?)
            && ImagesKept(s, t)
            && Image(t, version) == Success(Some(image)) && t.channels == channels && t.package == s.package
  {
    hide BundleImage, WithBundle, NightlySound, Value, Image;
    var between := s.(channels := channels);
    SameBundles(s, between);
    BundleRecorded(between, version, image);
  }

  lemma SameBundles(s: Files, t: Files)
    requires t.bundles == s.bundles && t.nightly == s.nightly
    ensures forall v :: Image(t, v) == Image(s, v)
  {
  }

  /** What a channel file says stays recorded. */
  lemma EntriesStayRecorded(s: Files, t: Files, name: string, text: string)
    requires ImagesKept(s, t) && SoundChannel(s, name, text)
    ensures SoundChannel(t, name, text)
  {
    hide ChannelFile, Image, BundleName, VersionOf;
    var entries :| ChannelFile(name, text, entries) && forall e :: e in entries ==> EntryRecorded(s, e);
    forall e | e in entries
      ensures EntryRecorded(t, e)
    {
    }
  }

  // ----- channels -----

  lemma ReadsBack(name: string, text: string, entries: seq<Entry>)
    requires ChannelFile(name, text, entries)
    ensures ParsedChannel(text, name) == Success(Channel(name, entries, PACKAGE_NAME))
    ensures Head(Channel(name, entries, PACKAGE_NAME)) == Success(Some(entries[|entries| - 1]))
  {
    hide Rendered, ParsedChannel, Head, OneHeaded, ReleasePath, CleanChannel, NightlyName;
    ParseRendered(Channel(name, entries, PACKAGE_NAME));
    LastIsHead(Channel(name, entries, PACKAGE_NAME));
  }

  lemma LastIsHead(c: Channel)
    requires OneHeaded(c.entries)
    ensures c.entries != [] && OnlyHead(c.entries, |c.entries| - 1)
    ensures Head(c) == Success(Some(c.entries[|c.entries| - 1]))
  {
    hide Head, OnlyHead, EdgesWithin;
    OnlyHeadIsHead(c, |c.entries| - 1);
  }

  lemma PathIsOneHeaded(entries: seq<Entry>)
    requires ReleasePath(entries)
    ensures OneHeaded(entries)
  {
    hide OnlyHead, Older, ValidEntryVersions, ValidEntryName;
    NamesDiffer(entries);
    NewestIsOnlyHead(entries);
    forall e | e in entries
      ensures EdgesWithin(entries, e)
    {
      var i :| 0 <= i < |entries| && entries[i] == e;
      PathEdge(entries, i);
      assert i > 0 ==> entries[i - 1] in entries;
    }
  }

  /** A new entry on top of the head becomes the only head. */
  lemma OnTopIsOneHeaded(entries: seq<Entry>, name: string)
    requires OneHeaded(entries) && name !in NameSet(entries) && entries[|entries| - 1].name != ""
    ensures OneHeaded(entries + [Entry(name, Some(entries[|entries| - 1].name), [])])
  {
    hide EdgesWithin, NameSet, ReplacedNames, SkippedNames;
    var n := |entries|;
    var added := Entry(name, Some(entries[n - 1].name), []);
    var longer := entries + [added];
    OnTopNames(entries, added);
    NoEdgeLeaves(entries);
    forall k | 0 <= k < n
      ensures longer[k].name in ReplacedNames(longer) + SkippedNames(longer) && longer[k].name != name
    {
      NamedThere(entries, k);
    }
    assert forall k :: 0 <= k < n ==> longer[k] == entries[k];
    assert longer[n].name == name && name !in ReplacedNames(longer) + SkippedNames(longer);
    forall e | e in longer
      ensures EdgesWithin(longer, e)
    {
      OnTopEdges(entries, added, e);
    }
  }

  lemma NamedThere(entries: seq<Entry>, k: nat)
    requires k < |entries|
    ensures entries[k].name in NameSet(entries)
  {
    assert entries[k] in entries;
  }

  lemma OnTopNames(entries: seq<Entry>, added: Entry)
    requires added.predecessor.Some? && added.predecessor.value != "" && added.skips == []
    ensures var longer := entries + [added];
            && NameSet(longer) == NameSet(entries) + {added.name}
            && ReplacedNames(longer) == ReplacedNames(entries) + {added.predecessor.value}
            && SkippedNames(longer) == SkippedNames(entries)
  {
    var longer := entries + [added];
    assert longer[|entries|] == added;
    assert forall e :: e in longer <==> e in entries || e == added;
  }

  lemma OnTopEdges(entries: seq<Entry>, added: Entry, e: Entry)
    requires entries != [] && (e in entries ==> EdgesWithin(entries, e)) && e in entries + [added]
    requires added == Entry(added.name, Some(entries[|entries| - 1].name), [])
    ensures EdgesWithin(entries + [added], e)
  {
    hide NameSet;
    OnTopNameSet(entries, added);
    NamedThere(entries, |entries| - 1);
  }

  lemma OnTopNameSet(entries: seq<Entry>, added: Entry)
    ensures NameSet(entries + [added]) == NameSet(entries) + {added.name}
  {
    var longer := entries + [added];
    assert longer[|entries|] == added;
    assert forall e :: e in longer <==> e in entries || e == added;
  }

  lemma NoEdgeLeaves(entries: seq<Entry>)
    requires forall e :: e in entries ==> EdgesWithin(entries, e)
    ensures ReplacedNames(entries) + SkippedNames(entries) <= NameSet(entries)
  {
  }

  lemma FileOf(name: string, entries: seq<Entry>)
    requires CleanChannel(Channel(name, entries, PACKAGE_NAME))
    requires OneHeaded(entries) && (!NightlyName(name) ==> ReleasePath(entries))
    ensures ChannelFile(name, Rendered(Channel(name, entries, PACKAGE_NAME)), entries)
  {
  }

  lemma CleanOnTop(name: string, entries: seq<Entry>, version: string)
    requires CleanChannel(Channel(name, entries, PACKAGE_NAME)) && ValidSemver(version) && entries != []
    ensures var head := entries[|entries| - 1].name;
            && head != ""
            && CleanChannel(Channel(name, entries + [Entry(BundleName(version), Some(head), [])], PACKAGE_NAME))
  {
    hide ValidSemver, BundleName;
    BundleNameIsToken(version);
    assert entries[|entries| - 1] in entries;
  }

  lemma ReleaseNameIsNotNightly(version: string, neteye: Option<string>)
    requires neteye.Some? ==> OneLine(neteye.value)
    ensures var name := ReleaseChannelName(version, neteye); !NightlyName(name) && OneLine(name)
  {
    var name := ReleaseChannelName(version, neteye);
    assert name[|name| - 1] == 'e' || name[|name| - 1] == 'a';
    if NightlyName(name) {
      NightlyEndsInY(name);
    }
  }

  lemma NightlyEndsInY(name: string)
    requires NightlyName(name)
    ensures name[|name| - 1] == 'y'
  {
    assert name[|name| - 1] == name[|name| - 8..][7] == "-nightly"[7];
  }

  lemma NightlyNameOf(line: string)
    requires OneLine(line)
    ensures NightlyName(line + "-nightly") && OneLine(line + "-nightly")
  {
  }

  // ----- what each command leaves -----

  lemma OnTopIsClean(c: Channel, version: string, longer: Channel)
    requires ValidSemver(version) && CleanChannel(c)
    requires longer == c.(entries := longer.entries) && OnTop(c.entries, version, longer.entries)
    ensures CleanChannel(longer)
  {
    hide ValidSemver, ReplacedNames, SkippedNames, OneLine, Token;
    BundleNameIsToken(version);
    assert BundleName(version) == "neteye-operator." + version;
    assert forall i :: 0 <= i < |c.entries| ==> c.entries[i] in c.entries;
  }

  /** A release or bugfix release written on top of a channel that could be read, or was not there. */
  lemma WrittenOnTop(before: map<string, string>, after: map<string, string>, name: string, version: string,
                     longer: Channel)
    requires ValidSemver(version) && ChannelFor(before, name).Success?
    requires longer == ChannelFor(before, name).value.(entries := longer.entries)
    requires OnTop(ChannelFor(before, name).value.entries, version, longer.entries)
    requires name in after && after[name] == Rendered(longer)
    ensures ReleaseOnTop(before, after, name, version)
  {
    hide ValidSemver, ParsedChannel, Rendered, OneLine, OnTop;
    var c := ChannelFor(before, name).value;
    if OneLine(name) && OneLine(c.package) {
      if name in before {
        ParsedIsClean(before[name], name);
      }
      OnTopIsClean(c, version, longer);
      ParseRendered(longer);
    }
  }

  /** What a release is accepted for, whichever channel the names lead to. */
  lemma ReleaseAcceptedExactly(s: Files, version: string, image: string, neteye: Option<string>)
    ensures ReleaseAccepted(s, version, image, neteye) <==>
              && ValidSemver(version) && PinnedImage(image) && s.package.Some? && Image(s, version) == Success(None)
              && exists name :: ReleaseChannel(name, version, neteye) && TakesRelease(s.channels, name, version)
  {
    hide ValidSemver, PinnedImage, Image, ParsedChannel, Promoted, NewerThanHead, ValidEntryVersions;
    var name := ReleaseChannelName(version, neteye);
    assert ReleaseChannel(name, version, neteye);
    if ValidSemver(version) && ChannelFor(s.channels, name).Success? {
      PromotedExactly(ChannelFor(s.channels, name).value, version);
    }
  }

  /** A bugfix release is accepted when no channel speaks against it, and some channel is on its line. */
  lemma BackportAcceptedExactly(s: Files, version: string, image: string)
    ensures BackportAccepted(s, version, image) <==>
              && ValidSemver(version) && PinnedImage(image) && Image(s, version) == Success(None)
              && (forall name :: name in s.channels ==> AllowsBackport(s.channels, name, version))
              && exists name :: name in s.channels && OnSameLine(s.channels, name, version)
  {
    hide ValidSemver, PinnedImage, Image, BackportedText, AllowsBackport, OnSameLine;
    if ValidSemver(version) {
      forall name | name in s.channels
        ensures BackportedText(name, s.channels[name], version).Success? <==> AllowsBackport(s.channels, name, version)
        ensures BackportedText(name, s.channels[name], version).Success? ==>
                  (BackportedText(name, s.channels[name], version) != Success(None) <==>
                     OnSameLine(s.channels, name, version))
      {
        BackportAllowed(s.channels, name, version);
      }
    }
  }

  lemma BackportAllowed(channels: map<string, string>, name: string, version: string)
    requires ValidSemver(version) && name in channels
    ensures BackportedText(name, channels[name], version).Success? <==> AllowsBackport(channels, name, version)
    ensures BackportedText(name, channels[name], version).Success? ==>
              (BackportedText(name, channels[name], version) != Success(None) <==>
                 OnSameLine(channels, name, version))
  {
    hide ValidSemver, Backported, ParsedChannel, Rendered, OnlyHead, ValidEntryVersions, SameMinor;
    var parsed := ParsedChannel(channels[name], name);
    if parsed.Success? {
      BackportedExactly(parsed.value, version);
      if ValidEntryVersions(parsed.value.entries) {
        LinesDiffer(parsed.value.entries, version);
      }
    }
  }

  /** An accepted release is recorded and on top of its channel; the default channel follows a release line. */
  lemma ReleaseLeaves(s: Files, version: string, image: string, neteye: Option<string>)
    requires ReleaseAccepted(s, version, image, neteye)
    ensures var t := AfterRelease(s, version, image, neteye);
            && ReleaseAdded(s, t, version, image, neteye)
            && (neteye.Some? && neteye.value != "" && |s.package.value| == 1 ==>
                  t.package == Some([neteye.value + "-stable"]))
            && (neteye.None? || neteye.value == "" || |s.package.value| != 1 ==> t.package == s.package)
  {
    hide ValidSemver, PinnedImage, BundleImage, Promoted, ParsedChannel, Rendered, WithBundle, Image, OnTop, Value;
    var name := ReleaseChannelName(version, neteye);
    var c := ChannelFor(s.channels, name).value;
    var longer := Promoted(c, version).value;
    var t := AfterRelease(s, version, image, neteye);
    PinnedImageValue(image);
    BundleNameIsToken(version);
    PromotedExactly(c, version);
    var between := s.(channels := s.channels[name := Rendered(longer)]);
    SameBundles(s, between);
    BundleRecorded(between, version, image);
    SameBundles(WithBundle(between, version, image), t);
    WrittenOnTop(s.channels, t.channels, name, version, longer);
    assert OnlyChannel(s, t, name);
  }

  lemma BackportedTextMeans(s: Files, t: Files, name: string, version: string)
    requires ValidSemver(version) && name in s.channels && name in t.channels
    requires BackportedText(name, s.channels[name], version).Success?
    requires t.channels[name] == NewText(name, s.channels[name], version)
    ensures if OnSameLine(s.channels, name, version) then ReleaseOnTop(s.channels, t.channels, name, version)
            else t.channels[name] == s.channels[name]
  {
    hide ValidSemver, Backported, ParsedChannel, Rendered, OnTop, OnSameLine, ReleaseOnTop, AllowsBackport;
    BackportAllowed(s.channels, name, version);
    if OnSameLine(s.channels, name, version) {
      var c := ParsedChannel(s.channels[name], name).value;
      BackportedExactly(c, version);
      WrittenOnTop(s.channels, t.channels, name, version, Backported(c, version).value.value);
    }
  }

  /** The one head is on one line. */
  lemma LinesDiffer(entries: seq<Entry>, version: string)
    requires ValidSemver(version) && ValidEntryVersions(entries)
    ensures OnLineOfHead(entries, version) ==> entries != [] && !OffLineOfHead(entries, version)
  {
    hide ValidSemver, SameMinor, ReplacedNames, SkippedNames;
  }

  /** An accepted bugfix release is recorded and on top of every channel on its minor line, and of no other. */
  lemma BackportLeaves(s: Files, version: string, image: string)
    requires BackportAccepted(s, version, image)
    ensures BackportAdded(s, AfterBackport(s, version, image), version, image)
  {
    hide ValidSemver, PinnedImage, BundleImage, WithBundle, Image, BackportedText, OnSameLine, ReleaseOnTop, Value;
    var t := AfterBackport(s, version, image);
    PinnedImageValue(image);
    BundleNameIsToken(version);
    var between := s.(channels := map name | name in s.channels :: NewText(name, s.channels[name], version));
    SameBundles(s, between);
    BundleRecorded(between, version, image);
    forall name | name in s.channels
      ensures if OnSameLine(s.channels, name, version) then ReleaseOnTop(s.channels, t.channels, name, version)
              else t.channels[name] == s.channels[name]
    {
      BackportedTextMeans(s, t, name, version);
    }
    BackportAcceptedExactly(s, version, image);
  }

  /** A nightly build whose channel can be read goes on top of it; no other build changes a file. */
  lemma NightlyLeaves(s: Files, build: string, line: string)
    ensures var t := AfterNightly(s, build, line);
            if NightlyImage(build) && Readable(s.channels, line + "-nightly")
            then NightlyAdded(s, t, TagOf(build), build, line)
            else t == s
  {
    hide BundleImage, WithBundle, Image, NightlyText, NightlyTag, TagOf, NightlyImage, NightlyOnTop, Value,
         ParsedChannel;
    var name, tag := line + "-nightly", TagOf(build);
    if NightlyImage(build) && ChannelFor(s.channels, name).Success? {
      var t := AfterNightly(s, build, line);
      NightlyImageValue(build);
      NightlyImageTag(build);
      NightlyTagIsToken(tag);
      var between := s.(channels := s.channels[name := NightlyText(s.channels, name, tag)]);
      SameBundles(s, between);
      BundleRecorded(between, tag, build);
      NightlyTextHasOneHead(s.channels, t.channels, name, tag);
    }
  }

  // ----- each command keeps soundness -----

  lemma NewEntryRecorded(s: Files, version: string, image: string, e: Entry)
    requires e.name == BundleName(version) && Image(s, version) == Success(Some(image))
    ensures EntryRecorded(s, e)
  {
    VersionOfBundle(version);
  }

  /** The file a release is promoted to. */
  lemma PromotedFile(s: Files, version: string, image: string, neteye: Option<string>, t: Files)
    requires Sound(s) && ReleaseAccepted(s, version, image, neteye) && (neteye.Some? ==> OneLine(neteye.value))
    requires ImagesKept(s, t) && Image(t, version) == Success(Some(image))
    ensures var name := ReleaseChannelName(version, neteye);
            SoundChannel(t, name, Rendered(Promoted(ChannelFor(s.channels, name).value, version).value))
  {
    hide Promoted, ReleasePath, Rendered, ParsedChannel, Image, PinnedImage, BundleName, OneHeaded, NightlySound,
         ValidSemver, ReleaseChannelName, EntryRecorded, NightlyName, OneLine, ImagesKept;
    var name := ReleaseChannelName(version, neteye);
    ReleaseNameIsNotNightly(version, neteye);
    var c := ChannelFor(s.channels, name).value;
    var longer := Promoted(c, version).value;
    if name in s.channels {
      EntriesStayRecorded(s, t, name, s.channels[name]);
      var entries :| ChannelFile(name, s.channels[name], entries) && forall e :: e in entries ==> EntryRecorded(t, e);
      ReadsBack(name, s.channels[name], entries);
    }
    PromotedKeepsPath(c, version, longer);
    ReleaseChannelClean(Channel(name, longer.entries, PACKAGE_NAME));
    PathIsOneHeaded(longer.entries);
    NewEntryRecorded(t, version, image, longer.entries[|c.entries|]);
    forall e | e in longer.entries
      ensures EntryRecorded(t, e)
    {
      assert longer.entries == longer.entries[..|c.entries|] + [longer.entries[|c.entries|]];
    }
    FileOf(name, longer.entries);
  }

  lemma ReleaseKeepsSound(s: Files, version: string, image: string, neteye: Option<string>)
    requires Sound(s) && (neteye.Some? ==> OneLine(neteye.value))
    ensures var t := AfterRelease(s, version, image, neteye); Sound(t) && ImagesKept(s, t)
  {
    hide Promoted, Rendered, ParsedChannel, BundleImage, PinnedImage, NightlySound, ValidSemver, ReleaseChannelName,
         SoundChannel, WithBundle, Value, OneLine, ChannelFor;
    if ReleaseAccepted(s, version, image, neteye) {
      var t := AfterRelease(s, version, image, neteye);
      PinnedImageValue(image);
      BundleNameIsToken(version);
      var name := ReleaseChannelName(version, neteye);
      var text := Rendered(Promoted(ChannelFor(s.channels, name).value, version).value);
      NewBundleKeeps(s, s.channels[name := text], version, image);
      SameBundles(WithBundle(s.(channels := s.channels[name := text]), version, image), t);
      PromotedFile(s, version, image, neteye, t);
      forall other | other in t.channels
        ensures SoundChannel(t, other, t.channels[other])
      {
        if other != name {
          EntriesStayRecorded(s, t, other, s.channels[other]);
        }
      }
    }
  }

  /** The file a bugfix release goes on top of, or that it does not concern. */
  lemma BackportedFile(s: Files, name: string, version: string, image: string, t: Files)
    requires name in s.channels && SoundChannel(s, name, s.channels[name]) && ValidSemver(version)
    requires Image(s, version) == Success(None)
    requires ImagesKept(s, t) && Image(t, version) == Success(Some(image))
    ensures SoundChannel(t, name, NewText(name, s.channels[name], version))
  {
    hide Backported, ReleasePath, Rendered, ParsedChannel, Image, BundleName, OneHeaded, ValidSemver, EntryRecorded,
         NightlyName, ImagesKept, Head, CleanChannel, VersionOf;
    var text := s.channels[name];
    EntriesStayRecorded(s, t, name, text);
    var entries :| ChannelFile(name, text, entries) && forall e :: e in entries ==> EntryRecorded(s, e);
    ReadsBack(name, text, entries);
    var entries' :| ChannelFile(name, text, entries') && forall e :: e in entries' ==> EntryRecorded(t, e);
    ReadsBack(name, text, entries');
    var c := Channel(name, entries, PACKAGE_NAME);
    if Backported(c, version).Success? && Backported(c, version).value.Some? {
      var longer := Backported(c, version).value.value;
      OneHeadedNotEmpty(entries);
      BackportedOnTop(c, version, longer);
      NotThereYet(s, entries, version);
      CleanOnTop(name, entries, version);
      OnTopIsOneHeaded(entries, BundleName(version));
      if !NightlyName(name) {
        BackportedKeepsPath(c, version, longer);
      }
      NewEntryRecorded(t, version, image, longer.entries[|entries|]);
      FileOf(name, longer.entries);
    }
  }

  lemma OneHeadedNotEmpty(entries: seq<Entry>)
    requires OneHeaded(entries)
    ensures entries != []
  {
  }

  /** A version without a bundle has no entry. */
  lemma NotThereYet(s: Files, entries: seq<Entry>, version: string)
    requires Image(s, version) == Success(None) && forall e :: e in entries ==> EntryRecorded(s, e)
    ensures BundleName(version) !in NameSet(entries)
  {
    hide Image;
    VersionOfBundle(version);
  }

  lemma BackportKeepsSound(s: Files, version: string, image: string)
    requires Sound(s)
    ensures var t := AfterBackport(s, version, image); Sound(t) && ImagesKept(s, t)
  {
    hide BundleImage, PinnedImage, NightlySound, ValidSemver, SoundChannel, WithBundle, Value, NewText, BackportedText;
    if BackportAccepted(s, version, image) {
      var t := AfterBackport(s, version, image);
      PinnedImageValue(image);
      BundleNameIsToken(version);
      var channels := map name | name in s.channels :: NewText(name, s.channels[name], version);
      NewBundleKeeps(s, channels, version, image);
      forall name | name in t.channels
        ensures SoundChannel(t, name, t.channels[name])
      {
        BackportedFile(s, name, version, image, t);
      }
    }
  }

  lemma {:induction false} OtherNamesDiffer(entries: seq<Entry>, name: string)
    requires forall i, j :: 0 <= i < j < |entries| ==> entries[i].name != entries[j].name
    ensures AllDifferent(OtherNames(entries, name))
  {
    if entries != [] {
      OtherNamesDiffer(entries[1..], name);
      OtherNamesHold(entries[1..], name);
      assert forall e :: e in entries[1..] ==> e.name != entries[0].name;
      assert entries[0].name !in NameSet(entries[1..]);
      assert entries[0].name !in OtherNames(entries[1..], name);
    }
  }

  lemma RewriteIsOneHeaded(c: Channel, name: string, tag: string)
    requires forall e :: e in c.entries ==> e.name != ""
    requires forall i, j :: 0 <= i < j < |c.entries| ==> c.entries[i].name != c.entries[j].name
    ensures OneHeaded(NightlyChannel(c, name, tag).entries)
  {
    hide BundleName, EdgesWithin, OnlyHead, NightlyEntries, NameSet;
    RewriteHasOneHead(c, name, tag);
    var others := OtherNames(c.entries, BundleName(tag));
    var names := others + [BundleName(tag)];
    OtherNamesHold(c.entries, BundleName(tag));
    OtherNamesDiffer(c.entries, BundleName(tag));
    Append(others, BundleName(tag));
    NightlyEdges(names);
  }

  lemma NightlyEdges(names: seq<string>)
    requires names != [] && AllDifferent(names)
    ensures var entries := NightlyEntries(names);
            && |entries| == |names| && (forall i :: 0 <= i < |names| ==> entries[i].name == names[i])
            && forall e :: e in entries ==> EdgesWithin(entries, e)
  {
    var entries := NightlyEntries(names);
    NightlyNames(names);
    forall i | 0 <= i < |names|
      ensures entries[i].name == names[i] && EdgesWithin(entries, entries[i])
    {
      assert i < |names| - 1 ==> names[..|names| - 1][i] == names[i];
      assert |names| >= 2 ==> names[|names| - 2] in names;
      assert |names| >= 3 ==> forall n :: n in names[..|names| - 2] ==> n in names;
    }
  }

  lemma RewrittenRecorded(s: Files, c: Channel, name: string, tag: string)
    requires forall e :: e in c.entries ==> EntryRecorded(s, e)
    requires Image(s, tag).Success? && Image(s, tag).value.Some?
    requires forall e :: e in c.entries ==> e.name != ""
    ensures forall e :: e in NightlyChannel(c, name, tag).entries ==> EntryRecorded(s, e)
  {
    hide Image, BundleName, VersionOf, NightlyChannel, OnlyHead;
    RewriteHasOneHead(c, name, tag);
    VersionOfBundle(tag);
    forall e | e in NightlyChannel(c, name, tag).entries
      ensures EntryRecorded(s, e)
    {
      assert e.name in NameSet(NightlyChannel(c, name, tag).entries);
    }
  }

  lemma NightlyFileOf(s: Files, build: string, line: string, t: Files)
    requires Sound(s) && NightlyImage(build) && OneLine(line) && ChannelFor(s.channels, line + "-nightly").Success?
    requires ImagesKept(s, t) && Image(t, TagOf(build)).Success? && Image(t, TagOf(build)).value.Some?
    ensures var name := line + "-nightly"; SoundChannel(t, name, NightlyText(s.channels, name, TagOf(build)))
  {
    hide ReleasePath, Rendered, ParsedChannel, Image, BundleName, OneHeaded, EntryRecorded, NightlyName, ImagesKept,
         NightlySound, NightlyChannel, NightlyTag, Token, VersionOf;
    var name, tag := line + "-nightly", TagOf(build);
    NightlyNameOf(line);
    var c := ChannelFor(s.channels, name).value;
    if name in s.channels {
      EntriesStayRecorded(s, t, name, s.channels[name]);
      var entries :| ChannelFile(name, s.channels[name], entries) && forall e :: e in entries ==> EntryRecorded(t, e);
      ReadsBack(name, s.channels[name], entries);
      OneHeadedNames(entries);
    }
    TokensNotEmpty(c);
    RewriteIsClean(c, name, tag);
    RewriteIsOneHeaded(c, name, tag);
    RewrittenRecorded(t, c, name, tag);
    RewriteKeepsPlace(c, name, tag);
    FileOf(name, NightlyChannel(c, name, tag).entries);
  }

  lemma OneHeadedNames(entries: seq<Entry>)
    requires OneHeaded(entries)
    ensures forall i, j :: 0 <= i < j < |entries| ==> entries[i].name != entries[j].name
  {
  }

  lemma TokensNotEmpty(c: Channel)
    requires forall e :: e in c.entries ==> Token(e.name)
    ensures forall e :: e in c.entries ==> e.name != ""
  {
  }

  lemma RewriteKeepsPlace(c: Channel, name: string, tag: string)
    ensures NightlyChannel(c, name, tag) == Channel(name, NightlyChannel(c, name, tag).entries, PACKAGE_NAME)
  {
  }

  lemma NightlyKeepsSound(s: Files, build: string, line: string)
    requires Sound(s) && OneLine(line)
    ensures var t := AfterNightly(s, build, line); Sound(t) && ImagesKept(s, t)
  {
    hide BundleImage, NightlySound, SoundChannel, WithBundle, Value, NightlyText, ChannelFor, NightlyTag, TagOf,
         NightlyImage, OneLine;
    var name, tag := line + "-nightly", TagOf(build);
    var t := AfterNightly(s, build, line);
    if NightlyImage(build) && ChannelFor(s.channels, name).Success? {
      NightlyImageValue(build);
      NightlyImageTag(build);
      NightlyTagIsToken(tag);
      var between := s.(channels := s.channels[name := NightlyText(s.channels, name, tag)]);
      if Image(s, tag) == Success(None) {
        NewBundleKeeps(s, between.channels, tag, build);
      } else {
        SameBundles(s, t);
      }
      NightlyFileOf(s, build, line, t);
      forall other | other in t.channels
        ensures SoundChannel(t, other, t.channels[other])
      {
        if other != name {
          EntriesStayRecorded(s, t, other, s.channels[other]);
        }
      }
    }
  }

  lemma NightlyImageTag(build: string)
    requires NightlyImage(build)
    ensures NightlyTag(TagOf(build))
  {
  }

  /** Every command, accepted or not, keeps the catalog sound and every recorded image. */
  lemma NextKeepsSound(s: Files, command: Command)
    requires Sound(s) && Writable(command)
    ensures Sound(Next(s, command)) && ImagesKept(s, Next(s, command))
  {
    hide Sound, ImagesKept, AfterRelease, AfterBackport, AfterNightly, OneLine;
    match command {
      case Release(version, image, neteye) => ReleaseKeepsSound(s, version, image, neteye);
      case Backport(version, image) => BackportKeepsSound(s, version, image);
      case Nightly(build, line) => NightlyKeepsSound(s, build, line);
    }
  }

  lemma NothingIsSound(package: Option<seq<string>>)
    ensures Sound(Files(package, map[], map[], None))
  {
  }

  /** So does every run, and an image once recorded never changes between any two points of it. */
  lemma {:induction false} RunKeepsSound(s: Files, commands: seq<Command>, i: nat, j: nat)
    requires Sound(s) && i <= j <= |commands| && forall c :: c in commands ==> Writable(c)
    ensures Sound(Run(s, commands[..i])) && Sound(Run(s, commands[..j]))
    ensures ImagesKept(Run(s, commands[..i]), Run(s, commands[..j]))
    decreases j
  {
    hide Sound, ImagesKept, Next, Writable;
    assert commands[..0] == [];
    SameImages(Run(s, commands[..i]));
    if j > 0 {
      assert commands[..j][..j - 1] == commands[..j - 1];
      RunKeepsSound(s, commands, if i < j then i else j - 1, j - 1);
      NextKeepsSound(Run(s, commands[..j - 1]), commands[j - 1]);
      if i < j {
        ImagesKeptTransitive(Run(s, commands[..i]), Run(s, commands[..j - 1]), Run(s, commands[..j]));
      }
    }
  }

  lemma SameImages(s: Files)
    ensures ImagesKept(s, s)
  {
  }

  lemma ImagesKeptTransitive(s: Files, t: Files, u: Files)
    requires ImagesKept(s, t) && ImagesKept(t, u)
    ensures ImagesKept(s, u)
  {
    hide Image;
  }

  // ----- what soundness means -----

  /**
   In a sound catalog every channel file, nightly ones included, reads back as a channel
   of distinct names with exactly one head, its last entry, each with a recorded bundle.
   */
  lemma SoundChannelHasOneHead(s: Files, name: string)
    requires Sound(s) && name in s.channels
    ensures ParsedChannel(s.channels[name], name).Success?
    ensures var c := ParsedChannel(s.channels[name], name).value;
            && c.entries != [] && Head(c) == Success(Some(c.entries[|c.entries| - 1]))
            && OnlyHead(c.entries, |c.entries| - 1)
            && (forall i, j :: 0 <= i < j < |c.entries| ==> c.entries[i].name != c.entries[j].name)
            && (forall e :: e in c.entries ==> EntryRecorded(s, e))
            && (!NightlyName(name) ==> ReleasePath(c.entries))
  {
    hide ParsedChannel, Rendered, Head, OnlyHead, EntryRecorded, ReleasePath, NightlySound, Image, CleanChannel;
    var entries :| ChannelFile(name, s.channels[name], entries) && forall e :: e in entries ==> EntryRecorded(s, e);
    ReadsBack(name, s.channels[name], entries);
  }

  lemma AllVersionsGrow(entries: seq<Entry>)
    requires ReleasePath(entries)
    ensures forall i, j :: 0 <= i < j < |entries| ==> Older(entries[i], entries[j])
  {
    hide ReleasePath, Older;
    forall i, j | 0 <= i < j < |entries|
      ensures Older(entries[i], entries[j])
    {
      VersionsGrow(entries, i, j);
    }
  }

  /**
   A release channel moreover is one upgrade path: its versions grow from each entry to
   every later one, and its replaces edges lead from the head through all entries.
   */
  lemma SoundChannelIsOnePath(s: Files, name: string)
    requires Sound(s) && name in s.channels && !NightlyName(name)
    ensures ParsedChannel(s.channels[name], name).Success?
    ensures var entries := ParsedChannel(s.channels[name], name).value.entries;
            var last := |entries| - 1;
            && last >= 0 && (forall i, j :: 0 <= i < j < |entries| ==> Older(entries[i], entries[j]))
            && UpgradePath(entries, entries[last].name, last) == NamesDown(entries, last)
  {
    hide ParsedChannel, Older, UpgradePath, NamesDown, Head, OnlyHead, ReleasePath, Sound, EntryRecorded;
    SoundChannelHasOneHead(s, name);
    var entries := ParsedChannel(s.channels[name], name).value.entries;
    AllVersionsGrow(entries);
    PathMeetsAll(entries, |entries| - 1, |entries| - 1);
  }

  // ----- rerunning a nightly update -----

  /** The text of a rewritten nightly channel leads to the same text again. */
  lemma RewriteReadsBack(channels: map<string, string>, name: string, tag: string)
    requires ChannelFor(channels, name).Success? && OneLine(name) && NightlyTag(tag)
    ensures var text := NightlyText(channels, name, tag);
            var next := channels[name := text];
            ChannelFor(next, name).Success? && NightlyText(next, name, tag) == text
  {
    hide ParsedChannel, Rendered, NightlyTag;
    var c := ChannelFor(channels, name).value;
    if name in channels {
      ParsedIsClean(channels[name], name);
    }
    RewriteIsClean(c, name, tag);
    ParseRendered(NightlyChannel(c, name, tag));
    RewriteIsIdempotent(c, name, tag);
  }

  /**
   For any channel that can be read, or none, the text a nightly update writes reads
   back with the new build as the only head, which replaces the one before it and skips
   all earlier ones; the names are those of before, in order, and the new one.
   */
  lemma NightlyTextHasOneHead(before: map<string, string>, after: map<string, string>, name: string, tag: string)
    requires ChannelFor(before, name).Success? && NightlyTag(tag)
    requires name in after && after[name] == NightlyText(before, name, tag)
    ensures NightlyOnTop(before, after, name, tag)
    ensures OneLine(name) ==>
              var c := ParsedChannel(after[name], name).value; Head(c) == Success(Some(c.entries[|c.entries| - 1]))
  {
    hide ParsedChannel, Rendered, NightlyTag, Token, OnlyHead, Head, BundleName, NightlyChannel, NameSet, OneLine,
         KeptInOrder;
    var c := ChannelFor(before, name).value;
    if name in before {
      ParsedIsClean(before[name], name);
    }
    TokensNotEmpty(c);
    RewriteKeepsPlace(c, name, tag);
    RewriteHasOneHead(c, name, tag);
    if OneLine(name) {
      RewriteIsClean(c, name, tag);
      ParseRendered(NightlyChannel(c, name, tag));
      OnlyHeadIsHead(NightlyChannel(c, name, tag), |NightlyChannel(c, name, tag).entries| - 1);
    }
  }

  /** Updating the nightly channel again for the same build changes no file, and is accepted when it was before. */
  lemma NightlyIsIdempotent(s: Files, build: string, line: string)
    requires OneLine(line)
    ensures var t := AfterNightly(s, build, line);
            && AfterNightly(t, build, line) == t
            && (NightlyAccepted(s, build, line) ==> NightlyAccepted(t, build, line))
  {
    hide BundleImage, NightlySound, WithBundle, Value, NightlyText, ParsedChannel, NightlyTag, TagOf, NightlyImage,
         OneLine, NightlyName;
    var name, tag := line + "-nightly", TagOf(build);
    var t := AfterNightly(s, build, line);
    if NightlyImage(build) && ChannelFor(s.channels, name).Success? {
      NightlyImageValue(build);
      NightlyImageTag(build);
      NightlyTagIsToken(tag);
      NightlyNameOf(line);
      RewriteReadsBack(s.channels, name, tag);
      var between := s.(channels := s.channels[name := NightlyText(s.channels, name, tag)]);
      BundleRecorded(between, tag, build);
      assert t.channels[name := NightlyText(t.channels, name, tag)] == t.channels;
    }
  }
}
