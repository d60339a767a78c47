/** The lease that decides which NetEye resource owns the shared platform. */
module ClusterAuthority {
  import opened Wrappers
  import opened Ownership

  datatype Lease = Lease(version: nat, holder: Option<string>, refs: seq<OwnerRef>)

  /** Where one contender is in its check. */
  datatype Phase = Start | Absent | Raced | Found(read: Lease) | Attached(read: Lease)

  /** Every version the lease ever had, the latest last; the contenders; and the UIDs that passed the check. */
  datatype World = World(history: seq<Lease>, phases: seq<Phase>, passed: set<string>)

  /**
   A contender takes its next step. A read may be stale: it sees any version so far,
   or none. The reply to a request may be lost.
   */
  datatype Event = Event(contender: nat, seen: Option<nat>, lost: bool)

  function Seen(w: World, e: Event): Option<Lease> {
    if e.seen.Some? && e.seen.value < |w.history| then Some(w.history[e.seen.value]) else None
  }

  /** A NetEye resource. */
  datatype Owner = Owner(name: string, uid: string)

  /** The reference by which the resource controls an object. */
  function RefOf(owner: Owner): OwnerRef { OwnerRef(owner.name, owner.uid, true) }

  /** The references with the owner's in place of the first one of its name, or else added. */
  function WithController(refs: seq<OwnerRef>, owner: Owner): seq<OwnerRef> {
    if refs == [] then [RefOf(owner)]
    else if refs[0].name == owner.name then [RefOf(owner)] + refs[1..]
    else [refs[0]] + WithController(refs[1..], owner)
  }

  /** No other resource controls the object, except an earlier one of the same name. */
  predicate MayControl(refs: seq<OwnerRef>, owner: Owner) {
    ControllerOf(refs).Some? ==> ControllerOf(refs).value.name == owner.name
  }

  /** The owner's controlling reference stands in the place of the first one of its name, or at the end. */
  ghost predicate PutIn(refs: seq<OwnerRef>, owner: Owner, after: seq<OwnerRef>) {
    var mine := OwnerRef(owner.name, owner.uid, true);
    || (after == refs + [mine] && forall j :: 0 <= j < |refs| ==> refs[j].name != owner.name)
    || exists k :: 0 <= k < |refs| && refs[k].name == owner.name && after == refs[k := mine]
                     && forall j :: 0 <= j < k ==> refs[j].name != owner.name
  }

  lemma {:induction false} WithControllerIsPutIn(refs: seq<OwnerRef>, owner: Owner)
    ensures PutIn(refs, owner, WithController(refs, owner))
  {
    var after, mine := WithController(refs, owner), OwnerRef(owner.name, owner.uid, true);
    if refs != [] && refs[0].name == owner.name {
      assert after == refs[0 := mine];
    } else if refs != [] {
      var rest, later := refs[1..], WithController(refs[1..], owner);
      WithControllerIsPutIn(rest, owner);
      if later == rest + [mine] && forall j :: 0 <= j < |rest| ==> rest[j].name != owner.name {
        assert after == refs + [mine];
        assert forall j :: 0 < j < |refs| ==> refs[j] == rest[j - 1];
      } else {
        var k :| 0 <= k < |rest| && rest[k].name == owner.name && later == rest[k := mine]
                 && forall j :: 0 <= j < k ==> rest[j].name != owner.name;
        assert after == refs[k + 1 := mine];
        assert forall j :: 0 < j < |refs| ==> refs[j] == rest[j - 1];
      }
    }
  }

  lemma {:induction false} WithControllerControls(refs: seq<OwnerRef>, owner: Owner)
    requires MayControl(refs, owner)
    ensures ControlledBy(WithController(refs, owner), owner.uid)
  {
    if refs != [] && refs[0].name != owner.name {
      WithControllerControls(refs[1..], owner);
    }
  }

  /** The lease as a resource creates it. */
  function NewLease(owner: Owner): Lease { Lease(0, Some(owner.uid), [RefOf(owner)]) }

  datatype Verdict = Pass | Attach(refs: seq<OwnerRef>) | Refuse(error: CheckError)

  datatype CheckError = RequestFailed | HeldByAnother | OwnedByAnother

  /** What a resource makes of a lease it has read. */
  function Judge(read: Lease, owner: Owner): Verdict {
    if read.holder != Some(owner.uid) then Refuse(HeldByAnother)
    else if ControlledBy(read.refs, owner.uid) then Pass
    else if !MayControl(read.refs, owner) then Refuse(OwnedByAnother)
    else Attach(WithController(read.refs, owner))
  }

  function Moved(w: World, i: nat, phase: Phase): World
    requires i < |w.phases|
  {
    w.(phases := w.phases[i := phase])
  }

  /** The check is passed, and starts over with the next reconciliation. */
  function Passing(w: World, i: nat, uid: string): World
    requires i < |w.phases|
  {
    w.(phases := w.phases[i := Start], passed := w.passed + {uid})
  }

  function Step(w: World, i: nat, owner: Owner, e: Event): World
    requires i < |w.phases|
  {
    var latest := |w.history| - 1;
    match w.phases[i]
    case Start =>
      Moved(w, i, if e.lost then Start else if Seen(w, e).Some? then Found(Seen(w, e).value) else Absent)
    case Absent =>
      if w.history != [] then Moved(w, i, if e.lost then Start else Raced)
      else
        var created := w.(history := [NewLease(owner)]);
        if e.lost then Moved(created, i, Start) else Passing(created, i, owner.uid)
    case Raced =>
      Moved(w, i, if e.lost || Seen(w, e).None? then Start else Found(Seen(w, e).value))
    case Found(read) =>
      (match Judge(read, owner)
       case Refuse(_) => Moved(w, i, Start)
       case Pass => Passing(w, i, owner.uid)
       case Attach(refs) => Moved(w, i, Attached(read.(refs := refs))))
    case Attached(read) =>
      if w.history == [] || w.history[latest].version != read.version then Moved(w, i, Start)
      else
        var updated := w.(history := w.history + [read.(version := read.version + 1)]);
        if e.lost then Moved(updated, i, Start) else Passing(updated, i, owner.uid)
  }

  function Run(w: World, owners: seq<Owner>, events: seq<Event>): (r: World)
    requires |w.phases| == |owners|
    ensures |r.phases| == |owners|
  {
    if events == [] then w
    else
      var before := Run(w, owners, events[..|events| - 1]);
      var e := events[|events| - 1];
      if e.contender < |owners| then Step(before, e.contender, owners[e.contender], e) else before
  }

  // ----- one holder -----

  /** The lease, and every copy of it, names one holder, who alone has passed or is about to. */
  ghost predicate OneHolder(w: World, owners: seq<Owner>, holder: Option<string>) {
    && |w.phases| == |owners|
    && (forall l :: l in w.history ==> l.holder == holder)
    && (forall i :: 0 <= i < |owners| && w.phases[i].Found? ==> w.phases[i].read.holder == holder && w.history != [])
    && (forall i :: 0 <= i < |owners| && w.phases[i].Attached? ==>
          w.phases[i].read.holder == holder == Some(owners[i].uid) && w.history != [])
    && (forall u :: u in w.passed ==> holder == Some(u) && w.history != [])
  }

  lemma StepKeepsHolder(w: World, owners: seq<Owner>, i: nat, e: Event, holder: Option<string>)
    requires i < |w.phases| && OneHolder(w, owners, holder) && w.history != []
    ensures OneHolder(Step(w, i, owners[i], e), owners, holder)
  {
    hide ControllerOf, ControlledBy, MayControl, WithController;
    assert Seen(w, e).Some? ==> Seen(w, e).value in w.history;
    assert w.history[|w.history| - 1] in w.history;
  }

  /** Whoever creates the lease becomes its holder. */
  lemma FirstStep(w: World, owners: seq<Owner>, i: nat, e: Event, holder: Option<string>)
    requires i < |w.phases| && OneHolder(w, owners, holder) && w.history == []
    ensures var after := Step(w, i, owners[i], e);
            OneHolder(after, owners, if after.history == [] then holder else Some(owners[i].uid))
  {
    hide ControllerOf, ControlledBy, MayControl, WithController;
    var after := Step(w, i, owners[i], e);
    assert w.phases[i].Absent? ==> after.history == [NewLease(owners[i])];
  }

  /** A world before any check: the lease absent, or left behind by an earlier run. */
  ghost predicate Initial(w: World) {
    && (forall i :: 0 <= i < |w.phases| ==> w.phases[i].Start?) && w.passed == {} && |w.history| <= 1
  }

  lemma {:induction false} RunHasOneHolder(w: World, owners: seq<Owner>, events: seq<Event>)
    returns (holder: Option<string>)
    requires |w.phases| == |owners| && Initial(w)
    ensures OneHolder(Run(w, owners, events), owners, holder)
  {
    hide OneHolder, Step;
    if events == [] {
      holder := if w.history == [] then None else w.history[0].holder;
      InitiallyOneHolder(w, owners, holder);
    } else {
      var n := |events| - 1;
      holder := RunHasOneHolder(w, owners, events[..n]);
      var before, e := Run(w, owners, events[..n]), events[n];
      if e.contender < |owners| {
        if before.history == [] {
          FirstStep(before, owners, e.contender, e, holder);
          holder := if Run(w, owners, events).history == [] then holder else Some(owners[e.contender].uid);
        } else {
          StepKeepsHolder(before, owners, e.contender, e, holder);
        }
      }
    }
  }

  lemma InitiallyOneHolder(w: World, owners: seq<Owner>, holder: Option<string>)
    requires Initial(w) && |w.phases| == |owners| && holder == if w.history == [] then None else w.history[0].holder
    ensures OneHolder(w, owners, holder)
  {
  }

  lemma StepGrows(w: World, i: nat, owner: Owner, e: Event)
    requires i < |w.phases|
    ensures w.history <= Step(w, i, owner, e).history
  {
    hide Judge, Seen;
  }

  /** No step removes a version of the lease. */
  lemma {:induction false} HistoryGrows(w: World, owners: seq<Owner>, events: seq<Event>, k: nat)
    requires |w.phases| == |owners| && k <= |events|
    ensures Run(w, owners, events[..k]).history <= Run(w, owners, events).history
    decreases |events| - k
  {
    hide Step;
    if k == |events| {
      assert events[..k] == events;
    } else {
      HistoryGrows(w, owners, events, k + 1);
      assert events[..k + 1][..k] == events[..k] && events[..k + 1][k] == events[k];
      if events[k].contender < |owners| {
        StepGrows(Run(w, owners, events[..k]), events[k].contender, owners[events[k].contender], events[k]);
      }
    }
  }

  /**
   For any number of NetEye resources and every interleaving of their checks, with
   stale reads and lost replies, as long as no one deletes the lease: once there, it
   names the same holder for good, and only that holder ever passes.
   */
  lemma AtMostOneAuthority(w: World, owners: seq<Owner>, events: seq<Event>, k: nat, l: Lease, m: Lease)
    requires |w.phases| == |owners| && Initial(w) && k <= |events|
    ensures l in Run(w, owners, events[..k]).history && m in Run(w, owners, events).history ==> l.holder == m.holder
    ensures forall u, v :: u in Run(w, owners, events).passed && v in Run(w, owners, events).passed ==> u == v
    ensures forall u :: u in Run(w, owners, events).passed && m in Run(w, owners, events).history ==>
              m.holder == Some(u)
  {
    hide Run, Initial;
    var holder := RunHasOneHolder(w, owners, events);
    HistoryGrows(w, owners, events, k);
  }

  // ----- no update is lost -----

  /** The second version is the first with the controlling reference of its holder put in. */
  ghost predicate Follows(l: Lease, next: Lease, owners: seq<Owner>) {
    && next.version == l.version + 1 && next.holder == l.holder
    && exists i :: 0 <= i < |owners| && l.holder == Some(owners[i].uid) && PutIn(l.refs, owners[i], next.refs)
  }

  /** Each version follows the one before it; copies are of some version, with at most the reference put in. */
  ghost predicate InOrder(w: World, owners: seq<Owner>) {
    && |w.phases| == |owners|
    && (forall k, n :: 0 <= k && n == k + 1 < |w.history| ==> Follows(w.history[k], w.history[n], owners))
    && (forall i :: 0 <= i < |owners| && w.phases[i].Found? ==> w.phases[i].read in w.history)
    && (forall i :: 0 <= i < |owners| && w.phases[i].Attached? ==> AttachedTo(w.history, w.phases[i].read, owners[i]))
  }

  ghost predicate AttachedTo(history: seq<Lease>, read: Lease, owner: Owner) {
    exists l :: l in history && l.version == read.version && l.holder == read.holder == Some(owner.uid)
                && PutIn(l.refs, owner, read.refs)
  }

  lemma {:induction false} VersionsCount(w: World, owners: seq<Owner>, k: nat)
    requires InOrder(w, owners) && k < |w.history|
    ensures w.history[k].version == w.history[0].version + k
  {
    if k > 0 {
      VersionsCount(w, owners, k - 1);
      assert Follows(w.history[k - 1], w.history[k], owners);
    }
  }

  lemma JudgeAttaches(read: Lease, owner: Owner)
    ensures Judge(read, owner).Attach? ==>
              read.holder == Some(owner.uid) && PutIn(read.refs, owner, Judge(read, owner).refs)
  {
    WithControllerIsPutIn(read.refs, owner);
  }

  /** A copy with the latest version is of the latest version. */
  lemma LatestFollows(w: World, owners: seq<Owner>, i: nat)
    requires InOrder(w, owners) && i < |owners| && w.phases[i].Attached? && w.history != []
    requires w.history[|w.history| - 1].version == w.phases[i].read.version
    ensures var read := w.phases[i].read;
            Follows(w.history[|w.history| - 1], read.(version := read.version + 1), owners)
  {
    hide PutIn;
    var read, last := w.phases[i].read, |w.history| - 1;
    assert AttachedTo(w.history, read, owners[i]);
    var l :| l in w.history && l.version == read.version && l.holder == read.holder == Some(owners[i].uid)
             && PutIn(l.refs, owners[i], read.refs);
    var k :| 0 <= k < |w.history| && w.history[k] == l;
    VersionsCount(w, owners, k);
    VersionsCount(w, owners, last);
  }

  lemma StepKeepsOrder(w: World, owners: seq<Owner>, i: nat, e: Event)
    requires InOrder(w, owners) && i < |owners|
    ensures InOrder(Step(w, i, owners[i], e), owners)
  {
    hide PutIn, Judge, Follows, ControllerOf, ControlledBy, MayControl, WithController;
    var after := Step(w, i, owners[i], e);
    assert Seen(w, e).Some? ==> Seen(w, e).value in w.history;
    if w.phases[i].Found? {
      JudgeAttaches(w.phases[i].read, owners[i]);
    }
    if w.phases[i].Attached? && w.history != []
       && w.history[|w.history| - 1].version == w.phases[i].read.version {
      LatestFollows(w, owners, i);
    }
    forall j | 0 <= j < |owners| && after.phases[j].Attached?
      ensures AttachedTo(after.history, after.phases[j].read, owners[j])
    {
      if j != i {
        StepGrows(w, i, owners[i], e);
        AttachedStays(w.history, after.history, w.phases[j].read, owners[j]);
      }
    }
  }

  lemma AttachedStays(history: seq<Lease>, more: seq<Lease>, read: Lease, owner: Owner)
    requires AttachedTo(history, read, owner) && history <= more
    ensures AttachedTo(more, read, owner)
  {
    hide PutIn;
    var l :| l in history && l.version == read.version && l.holder == read.holder == Some(owner.uid)
             && PutIn(l.refs, owner, read.refs);
    assert l in more;
  }

  /**
   Whatever the interleaving, the versions of the lease follow each other: every update
   was made from the version it replaced, by the holder, and did no more than put in the
   holder's controlling reference.
   */
  lemma {:induction false} NoUpdateIsLost(w: World, owners: seq<Owner>, events: seq<Event>)
    requires |w.phases| == |owners| && Initial(w)
    ensures InOrder(Run(w, owners, events), owners)
  {
    hide InOrder, Step;
    if events == [] {
      InitiallyInOrder(w, owners);
    } else {
      var n := |events| - 1;
      NoUpdateIsLost(w, owners, events[..n]);
      if events[n].contender < |owners| {
        StepKeepsOrder(Run(w, owners, events[..n]), owners, events[n].contender, events[n]);
      }
    }
  }

  lemma InitiallyInOrder(w: World, owners: seq<Owner>)
    requires Initial(w) && |w.phases| == |owners|
    ensures InOrder(w, owners)
  {
  }

  // ----- the check itself -----

  /** The lease on the server, which other contenders may create or update between any two calls. */
  class Server {
    var lease: Option<Lease>
    /** No one else writes, and no request fails. */
    const quiet: bool

    constructor (lease: Option<Lease>, quiet: bool)
      ensures this.lease == lease && this.quiet == quiet
    {
      this.lease, this.quiet := lease, quiet;
    }

    /** The others keep to the same check, so they never change the holder of a lease that is there. */
    method Interfere()
      modifies this
      ensures old(lease).Some? ==> lease.Some? && lease.value.holder == old(lease).value.holder
      ensures quiet ==> lease == old(lease)
    {
      var busy: bool := *;
      if busy && !quiet {
        var theirs: Lease := *;
        lease := Some(if lease.Some? then theirs.(holder := lease.value.holder) else theirs);
      }
    }

    method Get() returns (ok: bool, read: Option<Lease>)
      modifies this
      ensures old(lease).Some? ==> lease.Some? && lease.value.holder == old(lease).value.holder
      ensures quiet ==> ok && lease == old(lease)
      ensures ok ==> read == lease
    {
      Interfere();
      ok := Attempt(quiet);
      read := lease;
    }

    method Create(mine: Lease) returns (ok: bool, taken: bool)
      modifies this
      ensures old(lease).Some? ==> lease.Some? && lease.value.holder == old(lease).value.holder
      ensures ok && !taken ==> lease == Some(mine)
      ensures ok && taken ==> lease.Some?
      ensures quiet ==> ok && taken == old(lease).Some? && lease == if taken then old(lease) else Some(mine)
    {
      Interfere();
      taken := lease.Some?;
      if !taken {
        lease := Some(mine);
      }
      ok := Attempt(quiet);
    }

    method Update(read: Lease, refs: seq<OwnerRef>) returns (ok: bool)
      requires lease.Some? && lease.value.holder == read.holder
      modifies this
      ensures lease.Some? && lease.value.holder == old(lease).value.holder
      ensures quiet && old(lease) == Some(read) ==>
                ok && lease == Some(read.(version := read.version + 1, refs := refs))
    {
      Interfere();
      if lease.value.version != read.version {
        return false;
      }
      lease := Some(read.(version := lease.value.version + 1, refs := refs));
      ok := Attempt(quiet);
    }
  }

  /** The lease can be this resource's: absent, or held by it and controlled by no other. */
  predicate Available(lease: Option<Lease>, owner: Owner) {
    lease.Some? ==>
      && lease.value.holder == Some(owner.uid)
      && var controller := ControllerOf(lease.value.refs);
         controller.None? || controller.value.uid == owner.uid || controller.value.name == owner.name
  }

  /** The lease after an undisturbed check that passed: new, or controlled by its holder, no other reference lost. */
  ghost predicate Taken(before: Option<Lease>, after: Option<Lease>, owner: Owner) {
    && after.Some? && after.value.holder == Some(owner.uid)
    && (before.None? ==> after.value == Lease(0, Some(owner.uid), [OwnerRef(owner.name, owner.uid, true)]))
    && (before.Some? && ControlledBy(before.value.refs, owner.uid) ==> after == before)
    && (before.Some? && !ControlledBy(before.value.refs, owner.uid) ==>
          after.value.version == before.value.version + 1 && PutIn(before.value.refs, owner, after.value.refs))
  }

  /**
   Passes only for the holder, and never changes the holder of a lease that is there.
   Undisturbed, it passes exactly when the lease is available, and then controls it.
   */
  method EnsureClusterAuthority(server: Server, owner: Owner) returns (error: Option<CheckError>)
    modifies server
    ensures old(server.lease).Some? ==>
              server.lease.Some? && server.lease.value.holder == old(server.lease).value.holder
    ensures error.None? ==> server.lease.Some? && server.lease.value.holder == Some(owner.uid)
    ensures server.quiet ==> (error.None? <==> Available(old(server.lease), owner))
    ensures server.quiet && error.Some? ==> server.lease == old(server.lease)
    ensures server.quiet && error.None? ==> ControlledBy(server.lease.value.refs, owner.uid)
    ensures server.quiet && error.None? ==> Taken(old(server.lease), server.lease, owner)
    ensures server.quiet && error.Some? ==>
              error.value == if old(server.lease).value.holder != Some(owner.uid) then HeldByAnother else OwnedByAnother
  {
    hide PutIn;
    var ok, found := server.Get();
    if !ok {
      return Some(RequestFailed);
    }
    var lease: Lease;
    if found.Some? {
      lease := found.value;
    } else {
      lease := NewLease(owner);
      var there;
      ok, there := server.Create(lease);
      if !ok {
        return Some(RequestFailed);
      }
      if there {
        ok, found := server.Get();
        if !ok || found.None? {
          return Some(RequestFailed);
        }
        lease := found.value;
      }
    }
    match Judge(lease, owner)
    case Refuse(reason) =>
      return Some(reason);
    case Pass =>
      return None;
    case Attach(refs) =>
      WithControllerControls(lease.refs, owner);
      WithControllerIsPutIn(lease.refs, owner);
      ok := server.Update(lease, refs);
      return if ok then None else Some(RequestFailed);
  }
}
