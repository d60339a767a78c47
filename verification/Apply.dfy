/**
 Applying a desired object against a server that others write to as well: versions
 tell whether an object is still the one that was read.
 */
module Apply {
  import opened Wrappers
  import opened Merge
  import opened Ownership

  datatype Definition = Definition(spec: Json, owner: Option<OwnerRef>)

  datatype Live = Live(version: nat, refs: seq<OwnerRef>, spec: Json, labelled: bool)

  datatype Outcome = Unchanged | Updated | Created

  datatype ApiError = NotFound | AlreadyExists | Conflict | RequestFailed | NotManaged

  /** One change this client made to the object. */
  datatype Write = Write(before: Option<Live>, after: Live)

  const ATTEMPTS := 4

  /** One object on the server. Between any two calls others may change, delete or create it. */
  class Server {
    var current: Option<Live>
    var lastVersion: nat
    /** No one else writes, and no request fails for reasons of its own. */
    const quiet: bool
    ghost var writes: seq<Write>
    /** How often this client has read the object. */
    ghost var fetches: nat

    ghost predicate Valid() reads this {
      current.Some? ==> current.value.version <= lastVersion
    }

    constructor (quiet: bool)
      ensures Valid() && this.quiet == quiet && current.None? && writes == []
    {
      this.quiet := quiet;
      current, lastVersion, writes, fetches := None, 0, [], 0;
    }

    /** What others do meanwhile; whatever they write gets a version never used before. */
    method Interfere()
      requires Valid()
      modifies this`current, this`lastVersion
      ensures Valid() && lastVersion >= old(lastVersion)
      ensures quiet ==> current == old(current)
      ensures current.Some? ==> current == old(current) || current.value.version > old(lastVersion)
    {
      if quiet {
        return;
      }
      if * {
        current := None;
      }
      if * {
        var theirs: Live := *;
        lastVersion := lastVersion + 1;
        current := Some(theirs.(version := lastVersion));
      }
    }

    method Get() returns (r: Result<Live, ApiError>)
      requires Valid()
      modifies this`current, this`lastVersion, this`fetches
      ensures Valid() && lastVersion >= old(lastVersion) && (quiet ==> current == old(current))
      ensures fetches == old(fetches) + 1
      ensures r.Success? ==> current == Some(r.value)
      ensures r == Failure(NotFound) ==> current.None?
      ensures r.Failure? ==> r.error.NotFound? || r.error.RequestFailed?
      ensures quiet ==> r == if current.Some? then Success(current.value) else Failure(NotFound)
    {
      fetches := fetches + 1;
      Interfere();
      var works := Attempt(quiet);
      if !works {
        return Failure(RequestFailed);
      }
      return if current.Some? then Success(current.value) else Failure(NotFound);
    }

    /** A request that fails may have taken effect. */
    method Create(refs: seq<OwnerRef>, spec: Json) returns (r: Result<Live, ApiError>)
      requires Valid()
      modifies this`current, this`lastVersion, this`writes
      ensures Valid() && lastVersion >= old(lastVersion)
      ensures writes == old(writes)
              || (|writes| == |old(writes)| + 1 && old(writes) <= writes
                  && writes[|old(writes)|] == Write(None, Live(writes[|old(writes)|].after.version, refs, spec, true)))
      ensures r.Failure? ==> r.error.AlreadyExists? || r.error.RequestFailed?
      ensures quiet && old(current).Some? ==>
                r == Failure(AlreadyExists) && current == old(current) && writes == old(writes)
      ensures quiet && old(current).None? ==> r.Success? && current == Some(Live(lastVersion, refs, spec, true))
    {
      Interfere();
      var works := Attempt(quiet);
      if !works {
        return Failure(RequestFailed);
      }
      if current.Some? {
        return Failure(AlreadyExists);
      }
      lastVersion := lastVersion + 1;
      var created := Live(lastVersion, refs, spec, true);
      writes := writes + [Write(None, created)];
      current := Some(created);
      works := Attempt(quiet);
      return if !works then Failure(RequestFailed) else Success(created);
    }

    /** Accepted only when the object still has the version that was read. */
    method Update(read: Live, changed: Live) returns (r: Result<Live, ApiError>)
      requires Valid() && read.version <= lastVersion
               && (current.Some? && current.value.version == read.version ==> current == Some(read))
      modifies this`current, this`lastVersion, this`writes
      ensures Valid() && lastVersion >= old(lastVersion)
      ensures writes == old(writes)
              || (|writes| == |old(writes)| + 1 && old(writes) <= writes
                  && var w := writes[|old(writes)|]; w == Write(Some(read), changed.(version := w.after.version)))
      ensures r.Failure? ==> r.error.NotFound? || r.error.Conflict? || r.error.RequestFailed?
      ensures quiet && old(current) == Some(read) ==> r.Success? && current == Some(changed.(version := lastVersion))
    {
      Interfere();
      var works := Attempt(quiet);
      if !works {
        return Failure(RequestFailed);
      }
      if current.None? {
        return Failure(NotFound);
      }
      if current.value.version != read.version {
        return Failure(Conflict);
      }
      lastVersion := lastVersion + 1;
      var stored := changed.(version := lastVersion);
      writes := writes + [Write(current, stored)];
      current := Some(stored);
      works := Attempt(quiet);
      return if !works then Failure(RequestFailed) else Success(stored);
    }
  }

  datatype Decision = Refused | Settled | Change(after: Live)

  /** What an object calls for: nothing when another controls it, or its spec is the declared one. */
  function Decide(live: Live, def: Definition): Decision {
    if def.owner.Some? && !ControlledBy(live.refs, def.owner.value.uid) then Refused
    else if live.spec == def.spec then Settled
    else Change(live.(spec := def.spec))
  }

  /** The object as it is created. */
  function NewObject(version: nat, def: Definition): Live {
    Live(version, if def.owner.Some? then [def.owner.value] else [], def.spec, true)
  }

  /** A write creates the object, or makes of the one it replaces what that one calls for. */
  ghost predicate Respectful(w: Write, def: Definition) {
    if w.before.None? then w.after == NewObject(w.after.version, def)
    else Decide(w.before.value, def) == Change(w.after.(version := w.before.value.version))
  }

  /** So the owner controls whatever it replaces, and replaces only its spec. */
  lemma RespectfulMeans(w: Write, def: Definition)
    requires w.before.Some?
    ensures Respectful(w, def) <==>
              && (def.owner.Some? ==> ControlledBy(w.before.value.refs, def.owner.value.uid))
              && w.before.value.spec != def.spec
              && w.after == w.before.value.(spec := def.spec, version := w.after.version)
  {
    var before, after := w.before.value, w.after;
    assert after == before.(spec := def.spec, version := after.version) <==>
        after.(version := before.version) == before.(spec := def.spec);
  }

  /** One attempt at bringing the object's spec back. */
  method ReconcileOnce(server: Server, def: Definition) returns (r: Result<Outcome, ApiError>)
    requires server.Valid()
    modifies server
    ensures server.fetches == old(server.fetches) + 1
    ensures server.Valid() && old(server.writes) <= server.writes
    ensures forall k :: |old(server.writes)| <= k < |server.writes| ==> Respectful(server.writes[k], def)
    ensures r.Success? ==> !r.value.Created?
    ensures server.quiet && old(server.current).Some? ==>
              && QuietOutcome(old(server.current).value, server.current, def, r)
              && (!Decide(old(server.current).value, def).Change? ==> server.writes == old(server.writes))
  {
    var live := server.Get();
    if live.Failure? {
      return Failure(live.error);
    }
    var refs, ownerChanged := live.value.refs, false;
    if def.owner.Some? {
      var managed := RequireManagedOwner(refs, def.owner.value);
      if !managed {
        return Failure(NotManaged);
      }
      ManagedNeedsNoAttaching(refs, def.owner.value);
      var attached := SetOwnerReference(refs, def.owner.value);
      if attached.None? {
        return Failure(NotManaged);
      }
      ownerChanged := attached.value != refs;
      refs := attached.value;
    }
    var specChanged := live.value.spec != def.spec;
    if !specChanged && !ownerChanged {
      return Success(Unchanged);
    }
    var updated := server.Update(live.value, live.value.(refs := refs, spec := def.spec));
    if updated.Failure? {
      return Failure(updated.error);
    }
    return Success(Updated);
  }

  /** What an undisturbed attempt does to an existing object. */
  ghost predicate QuietOutcome(before: Live, after: Option<Live>, def: Definition, r: Result<Outcome, ApiError>) {
    if def.owner.Some? && !ControlledBy(before.refs, def.owner.value.uid)
    then r == Failure(NotManaged) && after == Some(before)
    else if before.spec == def.spec then r == Success(Unchanged) && after == Some(before)
    else
      && r == Success(Updated) && after.Some?
      && after.value == Live(after.value.version, before.refs, def.spec, before.labelled)
  }

  /** Tries again, with a fresh read, while the version had changed; not more than four times. */
  method ReconcileExisting(server: Server, def: Definition) returns (r: Result<Outcome, ApiError>)
    requires server.Valid()
    modifies server
    ensures old(server.fetches) + 1 <= server.fetches <= old(server.fetches) + 4
    ensures r == Failure(Conflict) ==> server.fetches == old(server.fetches) + 4
    ensures server.Valid() && old(server.writes) <= server.writes
    ensures forall k :: |old(server.writes)| <= k < |server.writes| ==> Respectful(server.writes[k], def)
    ensures r.Success? ==> !r.value.Created?
    ensures server.quiet && old(server.current).Some? ==>
              && QuietOutcome(old(server.current).value, server.current, def, r)
              && (!Decide(old(server.current).value, def).Change? ==> server.writes == old(server.writes))
  {
    hide Respectful;
    r := ReconcileOnce(server, def);
    var attempts := 1;
    while r == Failure(Conflict) && attempts < ATTEMPTS
      invariant server.Valid() && old(server.writes) <= server.writes
      invariant server.fetches == old(server.fetches) + attempts && attempts <= 4
      invariant forall k :: |old(server.writes)| <= k < |server.writes| ==> Respectful(server.writes[k], def)
      invariant r.Success? ==> !r.value.Created?
      invariant server.quiet && old(server.current).Some? ==>
                  && QuietOutcome(old(server.current).value, server.current, def, r)
                  && (!Decide(old(server.current).value, def).Change? ==> server.writes == old(server.writes))
    {
      r := ReconcileOnce(server, def);
      attempts := attempts + 1;
    }
  }

  method CreateObject(server: Server, def: Definition) returns (r: Result<Outcome, ApiError>)
    requires server.Valid()
    modifies server
    ensures server.Valid() && old(server.writes) <= server.writes
    ensures forall k :: |old(server.writes)| <= k < |server.writes| ==> Respectful(server.writes[k], def)
    ensures server.quiet && old(server.current).None? ==>
              r == Success(Created) && server.current.Some?
              && server.current.value == NewObject(server.current.value.version, def)
  {
    var refs: seq<OwnerRef> := [];
    if def.owner.Some? {
      var attached := SetOwnerReference(refs, def.owner.value);
      if attached.None? {
        return Failure(NotManaged);
      }
      refs := attached.value;
    }
    var created := server.Create(refs, def.spec);
    if created.Failure? {
      if !created.error.AlreadyExists? {
        return Failure(created.error);
      }
      r := ReconcileExisting(server, def);
      return;
    }
    return Success(Created);
  }

  /**
   Creates the object or brings its spec back. However others interfere, and whichever
   call fails, an owner's writes only ever replace an object that owner controls, and
   only its spec. Undisturbed, what was there tells the outcome.
   */
  method ApplyObject(server: Server, def: Definition) returns (r: Result<Outcome, ApiError>)
    requires server.Valid()
    modifies server
    ensures server.Valid() && old(server.writes) <= server.writes
    ensures forall k :: |old(server.writes)| <= k < |server.writes| ==> Respectful(server.writes[k], def)
    ensures server.quiet && old(server.current).Some? ==>
              && QuietOutcome(old(server.current).value, server.current, def, r)
              && (!Decide(old(server.current).value, def).Change? ==> server.writes == old(server.writes))
    ensures server.quiet && old(server.current).None? ==>
              r == Success(Created) && server.current.Some?
              && server.current.value == NewObject(server.current.value.version, def)
  {
    hide Respectful;
    var live := server.Get();
    if live.Success? {
      r := ReconcileExisting(server, def);
    } else if live.error.NotFound? {
      r := CreateObject(server, def);
    } else {
      return Failure(live.error);
    }
  }

  /**
   What an undisturbed application leaves calls for nothing more exactly when it was
   accepted and the owner, if there is one, is given as controller or controlled the
   object already; otherwise it is refused from then on.
   */
  lemma AppliedIsSettled(before: Option<Live>, after: Live, def: Definition, r: Result<Outcome, ApiError>)
    requires if before.Some? then QuietOutcome(before.value, Some(after), def, r)
             else r == Success(Created) && after == NewObject(after.version, def)
    ensures Decide(after, def).Settled? <==>
              r.Success? && (r.value.Created? && def.owner.Some? ==> def.owner.value.controller)
    ensures Decide(after, def).Settled? || Decide(after, def).Refused?
  {
    if def.owner.Some? {
      NewOwnerManagesIffController(def.owner.value);
    }
  }

  /** Undisturbed, no number of further applications changes anything, and each says why. */
  method ApplyAgain(server: Server, def: Definition, times: nat) returns (results: seq<Result<Outcome, ApiError>>)
    requires server.Valid() && server.quiet && server.current.Some? && !Decide(server.current.value, def).Change?
    modifies server
    ensures server.Valid() && server.current == old(server.current) && server.writes == old(server.writes)
    ensures |results| == times && forall r :: r in results ==>
              r == if Decide(old(server.current).value, def).Settled? then Success(Unchanged) else Failure(NotManaged)
  {
    hide Respectful;
    results := [];
    for n := 0 to times
      invariant server.Valid() && server.current == old(server.current) && server.writes == old(server.writes)
      invariant |results| == n && forall r :: r in results ==>
                  r == if Decide(old(server.current).value, def).Settled? then Success(Unchanged)
                       else Failure(NotManaged)
    {
      var r := ApplyObject(server, def);
      results := results + [r];
    }
  }
}
