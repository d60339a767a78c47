/** The commands that add a release, a bugfix release, or a nightly build to the catalog. */
module CatalogCommands {
  import opened Wrappers
  import opened Sequences
  import opened Ordering
  import opened Text
  import opened SemVer
  import opened CatalogChannel
  import opened CatalogBundles
  import opened CatalogRelease
  import opened CatalogNightly
  import opened CatalogState

  /**
   How a command ends: the catalog was extended, it was already up to date, it was
   extended but the default channel could not be set, or the command was refused.
   */
  datatype Outcome = Extended | AlreadyCurrent | DefaultNotSet | Refused(error: CatalogError)

  /** False when the bundle is already recorded with exactly this image. */
  function BundleIsNew(s: Files, version: string, image: string): Result<bool, CatalogError> {
    var existing := Image(s, version);
    if existing.Failure? then Failure(existing.error)
    else if existing.value.None? then Success(true)
    else if existing.value.value != image then Failure(AlreadyReferenced)
    else Success(false)
  }

  class Catalog {
    /** The default channels named in the package file, absent when there is no such file. */
    var package: Option<seq<string>>
    /** The text of each channel file, by channel name. */
    var channels: map<string, string>
    /** The text of each release bundle file, by version. */
    var bundles: map<string, string>
    /** The text of the file all nightly bundles share. */
    var nightly: Option<string>

    constructor (package: Option<seq<string>>)
      ensures State() == Files(package, map[], map[], None)
    {
      this.package := package;
      channels, bundles, nightly := map[], map[], None;
    }

    function State(): Files
      reads this
    {
      Files(package, channels, bundles, nightly)
    }

    method SetDefaultChannel(channel: string) returns (ok: bool)
      modifies this`package
      ensures ok <==> old(package).Some? && |old(package).value| == 1
      ensures package == if ok then Some([channel]) else old(package)
    {
      if package.None? || |package.value| != 1 {
        return false;
      }
      package := Some([channel]);
      return true;
    }

    /** Afterwards the image can be read under its version, as every other one still can (`BundleRecorded`). */
    method WriteBundle(version: string, image: string)
      modifies this`bundles, this`nightly
      ensures State() == WithBundle(old(State()), version, image)
    {
      var doc := BundleDocument(version, image);
      if IsNightly(version) {
        nightly := Some(NightlyFile(NightlyDocuments(nightly) + [doc]));
      } else {
        bundles := bundles[version := doc + "\n"];
      }
    }

    /**
     Adds a release to its channel. A refused release changes nothing; when only the
     default channel cannot be set the release is there all the same.
     */
    method UpdateCatalog(version: string, image: string, neteye: Option<string>) returns (r: Outcome)
      modifies this
      ensures State() == AfterRelease(old(State()), version, image, neteye)
      ensures r == Extended || r == DefaultNotSet <==> ReleaseAccepted(old(State()), version, image, neteye)
      ensures r == AlreadyCurrent <==> AlreadyRecorded(old(State()), version, image) && old(package).Some?
      ensures r == DefaultNotSet <==>
                && ReleaseAccepted(old(State()), version, image, neteye)
                && neteye.Some? && neteye.value != "" && |old(package).value| != 1
      ensures r == Extended || r == DefaultNotSet ==> ReleaseAdded(old(State()), State(), version, image, neteye)
      ensures r == Extended ==>
                package == if neteye.Some? && neteye.value != "" then Some([neteye.value + "-stable"]) else old(package)
      ensures r == DefaultNotSet ==> package == old(package)
      ensures r == AlreadyCurrent || r.Refused? ==> State() == old(State())
    {
      hide Rendered, Promoted, BundleImage, ChannelFor, PinnedImage, ValidSemver, ReleaseChannelName, WithBundle,
           ReleaseAdded;
      var plan := CheckRelease(version, image, neteye);
      if plan.Failure? {
        return Refused(plan.error);
      }
      if plan.value.None? {
        return AlreadyCurrent;
      }
      ReleaseLeaves(State(), version, image, neteye);
      var name := ReleaseChannelName(version, neteye);
      channels := channels[name := Rendered(plan.value.value)];
      WriteBundle(version, image);
      if neteye.Some? && neteye.value != "" {
        NamedAfterNetEye(version, neteye);
        var ok := SetDefaultChannel(neteye.value + "-stable");
        if !ok {
          return DefaultNotSet;
        }
      }
      return Extended;
    }

    /** Everything a release checks before it writes: the channel to write, or none when it is recorded already. */
    method CheckRelease(version: string, image: string, neteye: Option<string>)
      returns (plan: Result<Option<Channel>, CatalogError>)
      ensures plan.Success? && plan.value.Some? <==> ReleaseAccepted(State(), version, image, neteye)
      ensures plan == Success(None) <==> AlreadyRecorded(State(), version, image) && package.Some?
      ensures plan.Success? && plan.value.Some? ==>
                Promoted(ChannelFor(channels, ReleaseChannelName(version, neteye)).value, version)
                == Success(plan.value.value)
    {
      hide BundleImage, ValidSemver, PinnedImage, Promoted, ChannelFor, ReleaseChannelName;
      if !ValidSemver(version) {
        return Failure(InvalidVersion);
      }
      if !PinnedImage(image) {
        return Failure(InvalidImage);
      }
      if package.None? {
        return Failure(MissingPackageFile);
      }
      var isNew := BundleIsNew(State(), version, image);
      if isNew.Failure? {
        return Failure(isNew.error);
      }
      if !isNew.value {
        return Success(None);
      }
      var channel := ChannelFor(channels, ReleaseChannelName(version, neteye));
      if channel.Failure? {
        return Failure(channel.error);
      }
      var longer := Promoted(channel.value, version);
      if longer.Failure? {
        return Failure(longer.error);
      }
      return Success(Some(longer.value));
    }

    /**
     Adds a bugfix release to every channel whose head is on the same minor line,
     or to none when one of them already has a newer head.
     */
    method UpdateCatalogBackport(version: string, image: string) returns (r: Outcome)
      modifies this`channels, this`bundles, this`nightly
      ensures State() == AfterBackport(old(State()), version, image)
      ensures r == Extended <==> BackportAccepted(old(State()), version, image)
      ensures r == AlreadyCurrent <==> AlreadyRecorded(old(State()), version, image)
      ensures r != DefaultNotSet
      ensures r == Extended ==> ValidSemver(version) && BackportAdded(old(State()), State(), version, image)
      ensures r != Extended ==> State() == old(State())
    {
      hide BackportAdded, BundleImage, BackportedText, NewText, Matched, PinnedImage, ValidSemver, WithBundle;
      var plan := CheckBackport(version, image);
      if plan.Failure? {
        return Refused(plan.error);
      }
      if plan.value.None? {
        return AlreadyCurrent;
      }
      BackportLeaves(State(), version, image);
      WriteChannels(plan.value.value);
      MatchedAreNewTexts(old(channels), plan.value.value, version);
      WriteBundle(version, image);
      return Extended;
    }

    /** Everything a backport checks before it writes: the new channel texts, or none when it is recorded already. */
    method CheckBackport(version: string, image: string)
      returns (plan: Result<Option<map<string, string>>, CatalogError>)
      ensures plan.Success? && plan.value.Some? <==> BackportAccepted(State(), version, image)
      ensures plan == Success(None) <==> AlreadyRecorded(State(), version, image)
      ensures plan.Success? && plan.value.Some? ==> Matched(channels, channels.Keys, plan.value.value, version)
    {
      hide Matched, BundleImage, ValidSemver, PinnedImage, BackportedText;
      if !ValidSemver(version) {
        return Failure(InvalidVersion);
      }
      if !PinnedImage(image) {
        return Failure(InvalidImage);
      }
      var isNew := BundleIsNew(State(), version, image);
      if isNew.Failure? {
        return Failure(isNew.error);
      }
      if !isNew.value {
        return Success(None);
      }
      var matched := MatchChannels(version);
      if matched.Failure? {
        return Failure(matched.error);
      }
      MatchedConcerned(channels, matched.value, version);
      if |matched.value| == 0 {
        return Failure(NothingToBackport);
      }
      return Success(Some(matched.value));
    }

    /** The new texts of the channels concerned by a backport. */
    method MatchChannels(version: string) returns (r: Result<map<string, string>, CatalogError>)
      requires ValidSemver(version)
      ensures r.Success? ==> Matched(channels, channels.Keys, r.value, version)
      ensures r.Success? <==> forall name :: name in channels ==> BackportedText(name, channels[name], version).Success?
    {
      hide BackportedText, Matched, AllDifferent;
      var names := ChannelNames();
      var matched: map<string, string> := map[];
      NothingMatched(channels, version);
      NoElements();
      assert names[..0] == [];
      for i := 0 to |names|
        invariant Matched(channels, Elements(names[..i]), matched, version)
      {
        var name := names[i];
        var text := BackportedText(name, channels[name], version);
        if text.Failure? {
          return Failure(text.error);
        }
        NotBefore(names, i);
        MatchedNext(channels, Elements(names[..i]), matched, version, name, text.value);
        if text.value.Some? {
          matched := matched[name := text.value.value];
        }
      }
      assert names[..|names|] == names;
      MatchedSucceed(channels, matched, version);
      return Success(matched);
    }

    /**
     Puts a nightly build on top of the nightly channel of a release line and
     records its bundle. The result tells whether the channel text changed.
     */
    method UpdateNightlyChannel(image: string, neteye: string) returns (r: Result<bool, CatalogError>)
      modifies this`channels, this`bundles, this`nightly
      ensures State() == AfterNightly(old(State()), image, neteye)
      ensures r.Success? <==> NightlyAccepted(old(State()), image, neteye)
      ensures r.Success? ==> (r.value <==> channels != old(channels))
      ensures if NightlyImage(image) && Readable(old(channels), neteye + "-nightly")
              then NightlyAdded(old(State()), State(), TagOf(image), image, neteye)
              else State() == old(State())
    {
      hide NightlyAdded, Rendered, BundleImage, ParsedChannel, NightlyTag, NightlyChannel, WithBundle, TagOf;
      if !NightlyImage(image) {
        return Failure(InvalidImage);
      }
      NightlyLeaves(State(), image, neteye);
      var tag := TagOf(image);
      var name := neteye + "-nightly";
      var channel := ChannelFor(channels, name);
      if channel.Failure? {
        return Failure(channel.error);
      }
      var text := Rendered(NightlyChannel(channel.value, name, tag));
      var changed := name !in channels || text != channels[name];
      if changed {
        channels := channels[name := text];
      }
      assert channels == old(channels)[name := text];
      var recorded := BundleImage(bundles, nightly, tag);
      if recorded.Failure? {
        return Failure(recorded.error);
      }
      if recorded.value.None? {
        WriteBundle(tag, image);
        RecordingKeepsChannels(old(State()).(channels := channels), tag, image);
      }
      return Success(changed);
    }

    /** The names of the channel files, in order. */
    method ChannelNames() returns (names: seq<string>)
      ensures AllDifferent(names) && Elements(names) == channels.Keys
      ensures forall name :: name in names ==> name in channels
    {
      names := [];
      var todo := channels.Keys;
      while todo != {}
        invariant todo <= channels.Keys && AllDifferent(names) && Elements(names) == channels.Keys - todo
        decreases todo
      {
        var name :| name in todo;
        assert channels.Keys - (todo - {name}) == channels.Keys - todo + {name};
        todo := todo - {name};
        Append(names, name);
        names := names + [name];
      }
      var sorted := Sort(names);
      SameElements(names, sorted);
      assert Elements(sorted) == Elements(names);
      names := sorted;
      assert forall name :: name in names ==> name in Elements(names);
    }

    method WriteChannels(matched: map<string, string>)
      modifies this`channels
      ensures channels == old(channels) + matched
    {
      var todo := matched.Keys;
      while todo != {}
        invariant todo <= matched.Keys
        invariant channels == old(channels) + (map name | name in matched.Keys - todo :: matched[name])
        decreases todo
      {
        var name :| name in todo;
        todo := todo - {name};
        channels := channels[name := matched[name]];
      }
      assert (map name | name in matched.Keys - todo :: matched[name]) == matched;
    }
  }

  lemma RecordingKeepsChannels(s: Files, version: string, image: string)
    ensures var t := WithBundle(s, version, image); t.channels == s.channels && t.package == s.package
  {
  }

  lemma NamedAfterNetEye(version: string, neteye: Option<string>)
    requires neteye.Some? && neteye.value != ""
    ensures ReleaseChannelName(version, neteye) == neteye.value + "-stable"
  {
  }

  /** Among `names`, `matched` holds the new text of exactly the channels a backport extends. */
  ghost predicate Matched(channels: map<string, string>, names: set<string>, matched: map<string, string>,
                          version: string)
    requires ValidSemver(version)
  {
    && names <= channels.Keys && matched.Keys <= names
    && forall name :: name in names ==> MatchedOne(channels, matched, version, name)
  }

  ghost predicate MatchedOne(channels: map<string, string>, matched: map<string, string>, version: string,
                             name: string)
    requires ValidSemver(version)
  {
    && name in channels
    && BackportedText(name, channels[name], version)
       == Success(if name in matched then Some(matched[name]) else None)
  }

  lemma NothingMatched(channels: map<string, string>, version: string)
    requires ValidSemver(version)
    ensures Matched(channels, {}, map[], version)
  {
  }

  lemma MatchedSucceed(channels: map<string, string>, matched: map<string, string>, version: string)
    requires ValidSemver(version) && Matched(channels, channels.Keys, matched, version)
    ensures forall name :: name in channels ==> BackportedText(name, channels[name], version).Success?
  {
    hide BackportedText;
    forall name | name in channels
      ensures BackportedText(name, channels[name], version).Success?
    {
      assert MatchedOne(channels, matched, version, name);
    }
  }

  /** Some channel is concerned exactly when some new text was found. */
  lemma MatchedConcerned(channels: map<string, string>, matched: map<string, string>, version: string)
    requires ValidSemver(version) && Matched(channels, channels.Keys, matched, version)
    ensures |matched| != 0 <==>
              exists name :: name in channels && BackportedText(name, channels[name], version) != Success(None)
  {
    hide BackportedText;
    forall name | name in channels
      ensures name in matched <==> BackportedText(name, channels[name], version) != Success(None)
    {
      assert MatchedOne(channels, matched, version, name);
    }
    assert matched == map[] <==> |matched| == 0;
    if matched != map[] {
      var name :| name in matched;
    }
  }

  lemma MatchedNext(channels: map<string, string>, names: set<string>, matched: map<string, string>,
                    version: string, name: string, text: Option<string>)
    requires ValidSemver(version) && Matched(channels, names, matched, version)
    requires name in channels && name !in names && BackportedText(name, channels[name], version) == Success(text)
    ensures Matched(channels, names + {name}, if text.Some? then matched[name := text.value] else matched, version)
  {
    hide BackportedText;
    var next := if text.Some? then matched[name := text.value] else matched;
    forall other | other in names
      ensures MatchedOne(channels, next, version, other)
    {
      assert MatchedOne(channels, matched, version, other);
    }
  }

  /** Writing the texts found gives every channel its new text. */
  lemma MatchedAreNewTexts(before: map<string, string>, matched: map<string, string>, version: string)
    requires ValidSemver(version) && Matched(before, before.Keys, matched, version)
    ensures before + matched == map name | name in before :: NewText(name, before[name], version)
  {
    hide BackportedText;
    forall name | name in before
      ensures (before + matched)[name] == NewText(name, before[name], version)
    {
      assert MatchedOne(before, matched, version, name);
    }
  }

  // ----- runs -----

  /**
   From an empty catalog, after any sequence of the three commands, accepted or not,
   the files are those of the run as a function; so every channel has exactly one head
   and every bundle an image.
   */
  method RunCommands(package: Option<seq<string>>, commands: seq<Command>) returns (catalog: Catalog)
    ensures catalog.State() == Run(Files(package, map[], map[], None), commands)
    ensures (forall c :: c in commands ==> Writable(c)) ==> Sound(catalog.State())
  {
    hide Sound, Next, AfterRelease, AfterBackport, AfterNightly, Writable;
    catalog := new Catalog(package);
    ghost var start := catalog.State();
    assert commands[..0] == [];
    for i := 0 to |commands|
      invariant fresh(catalog) && catalog.State() == Run(start, commands[..i])
    {
      assert commands[..i + 1][..i] == commands[..i];
      Execute(catalog, commands[i]);
    }
    assert commands[..|commands|] == commands;
    if forall c :: c in commands ==> Writable(c) {
      NothingIsSound(package);
      RunKeepsSound(start, commands, |commands|, |commands|);
    }
  }

  method Execute(catalog: Catalog, command: Command)
    modifies catalog
    ensures catalog.State() == Next(old(catalog.State()), command)
  {
    hide AfterRelease, AfterBackport, AfterNightly;
    match command {
      case Release(version, image, neteye) =>
        var r := catalog.UpdateCatalog(version, image, neteye);
      case Backport(version, image) =>
        var r := catalog.UpdateCatalogBackport(version, image);
      case Nightly(build, line) =>
        var r := catalog.UpdateNightlyChannel(build, line);
    }
  }

  /**
   Once the nightly update for a build was accepted, starting from `s`, no number of
   reruns changes a file, and each reports that it changed nothing.
   */
  method RerunNightly(catalog: Catalog, image: string, neteye: string, times: nat, ghost s: Files)
    returns (results: seq<Result<bool, CatalogError>>)
    requires OneLine(neteye) && NightlyAccepted(s, image, neteye)
    requires catalog.State() == AfterNightly(s, image, neteye)
    modifies catalog
    ensures catalog.State() == old(catalog.State())
    ensures |results| == times && forall r :: r in results ==> r == Success(false)
  {
    hide AfterNightly, NightlyAccepted;
    results := [];
    NightlyIsIdempotent(s, image, neteye);
    for n := 0 to times
      invariant catalog.State() == AfterNightly(s, image, neteye)
      invariant |results| == n && forall r :: r in results ==> r == Success(false)
    {
      var r := catalog.UpdateNightlyChannel(image, neteye);
      results := results + [r];
    }
  }
}
