/** Any number of owners applying their definitions to one object, their calls interleaved in any order. */
module ApplyInterleaving {
  import opened Wrappers
  import opened Merge
  import opened Ownership
  import opened Apply

  datatype Owned = Owned(owner: OwnerRef, spec: Json)

  /** Where one client is: before its next call, perhaps with the object it has read. */
  datatype Phase = Start | Missing | Retrying | Holding(read: Live)

  datatype World = World(current: Option<Live>, lastVersion: nat, phases: seq<Phase>)

  /** A client makes its next call, whose reply may be lost; or someone deletes the object. */
  datatype Event = Call(client: nat, lost: bool) | Delete

  function AfterCall(w: World, i: nat, def: Owned): World
    requires i < |w.phases|
  {
    var next := w.lastVersion + 1;
    match w.phases[i]
    case Start => w.(phases := w.phases[i := if w.current.None? then Missing else Retrying])
    case Missing =>
      if w.current.Some? then w.(phases := w.phases[i := Retrying])
      else World(Some(NewObject(next, DefinitionOf(def))), next, w.phases[i := Start])
    case Retrying =>
      if w.current.None? || !Decide(w.current.value, DefinitionOf(def)).Change?
      then w.(phases := w.phases[i := Start])
      else w.(phases := w.phases[i := Holding(w.current.value)])
    case Holding(read) =>
      if w.current.None? || !Decide(read, DefinitionOf(def)).Change? then w.(phases := w.phases[i := Start])
      else if w.current.value.version != read.version then w.(phases := w.phases[i := Retrying])
      else
        var changed := Decide(read, DefinitionOf(def)).after;
        World(Some(changed.(version := next)), next, w.phases[i := Start])
  }

  function DefinitionOf(def: Owned): Definition { Definition(def.spec, Some(def.owner)) }

  function Next(w: World, defs: seq<Owned>, e: Event): World
    requires |w.phases| == |defs|
    ensures |Next(w, defs, e).phases| == |defs|
  {
    match e
    case Delete => w.(current := None)
    case Call(i, lost) =>
      if i >= |defs| then w
      else
        var after := AfterCall(w, i, defs[i]);
        if lost then after.(phases := after.phases[i := Start]) else after
  }

  function Run(w: World, defs: seq<Owned>, events: seq<Event>): (r: World)
    requires |w.phases| == |defs|
    ensures |r.phases| == |defs|
  {
    if events == [] then w else Next(Run(w, defs, events[..|events| - 1]), defs, events[|events| - 1])
  }

  /** Whoever holds a copy of the version on the server holds the very object, and controls it. */
  ghost predicate Consistent(w: World, defs: seq<Owned>) {
    && |w.phases| == |defs| && (w.current.Some? ==> w.current.value.version <= w.lastVersion)
    && forall i :: 0 <= i < |defs| && w.phases[i].Holding? ==>
         var read := w.phases[i].read;
         && read.version <= w.lastVersion && ControlledBy(read.refs, defs[i].owner.uid)
         && (w.current.Some? && w.current.value.version == read.version ==> w.current.value == read)
  }

  /** The object has one owner, and what it says was declared by a client of that owner. */
  ghost predicate OwnersOwn(w: World, defs: seq<Owned>) {
    w.current.Some? ==>
      && |w.current.value.refs| == 1
      && exists i ::
           && 0 <= i < |defs| && defs[i].owner.uid == w.current.value.refs[0].uid
           && defs[i].spec == w.current.value.spec
  }

  /** One event keeps copies consistent; a call changes an object only if the caller controls it. */
  lemma StepRespectsOwners(w: World, defs: seq<Owned>, e: Event)
    requires Consistent(w, defs)
    ensures Consistent(Next(w, defs, e), defs)
    ensures var after := Next(w, defs, e);
            e.Call? && w.current.Some? && after.current != w.current ==>
              && e.client < |defs| && ControlledBy(w.current.value.refs, defs[e.client].owner.uid)
              && after.current.Some? && after.current.value.refs == w.current.value.refs
              && after.current.value.spec == defs[e.client].spec
    ensures OwnersOwn(w, defs) ==> OwnersOwn(Next(w, defs, e), defs)
  {
    hide ControlledBy;
    var after := Next(w, defs, e);
    if e.Call? && e.client < |defs| {
      assert w.current.None? && after.current.Some? ==>
          after.current.value.refs == [defs[e.client].owner] && after.current.value.spec == defs[e.client].spec;
      if w.current.Some? && after.current != w.current {
        SingleController(w.current.value.refs, defs[e.client].owner.uid);
      }
    }
  }

  lemma SingleController(refs: seq<OwnerRef>, uid: string)
    ensures ControlledBy(refs, uid) && |refs| == 1 ==> refs[0].uid == uid
  {
  }

  /**
   For every interleaving, from any object and any stage of the calls: each call that
   changed an existing object was made by a client whose owner controlled it. If there is
   no object at first, or one with a single owner that says what a client of that owner
   declared, the same holds at any later time.
   */
  lemma {:induction false} NoForeignOverwrite(w: World, defs: seq<Owned>, events: seq<Event>)
    requires Consistent(w, defs)
    ensures Consistent(Run(w, defs, events), defs)
    ensures OwnersOwn(w, defs) ==> OwnersOwn(Run(w, defs, events), defs)
    ensures forall k :: 0 <= k < |events| ==> StepIsOwned(w, defs, events, k)
  {
    if events != [] {
      var n := |events| - 1;
      NoForeignOverwrite(w, defs, events[..n]);
      StepRespectsOwners(Run(w, defs, events[..n]), defs, events[n]);
      forall k | 0 <= k < n
        ensures StepIsOwned(w, defs, events, k)
      {
        assert StepIsOwned(w, defs, events[..n], k);
        assert events[..n][..k] == events[..k] && events[..n][..k + 1] == events[..k + 1];
      }
      assert events[..n + 1] == events;
    }
  }

  /** If the k-th event is a call that changed an object, its caller's owner controlled that and kept its references. */
  ghost predicate StepIsOwned(w: World, defs: seq<Owned>, events: seq<Event>, k: nat)
    requires |w.phases| == |defs| && k < |events|
  {
    var before, after := Run(w, defs, events[..k]).current, Run(w, defs, events[..k + 1]).current;
    events[k].Call? && before.Some? && after != before ==>
      && events[k].client < |defs| && ControlledBy(before.value.refs, defs[events[k].client].owner.uid)
      && after.Some? && after.value.refs == before.value.refs
  }
}
