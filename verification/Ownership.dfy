/** Owner references of an object: who controls it, who may manage it, and how an owner is attached. */
module Ownership {
  import opened Wrappers

  /** `name` stands for the group, kind and name of the owner. */
  datatype OwnerRef = OwnerRef(name: string, uid: string, controller: bool)

  /** The reference that controls an object: the first one marked so. */
  function ControllerOf(refs: seq<OwnerRef>): (r: Option<OwnerRef>)
    ensures r.Some? ==> r.value in refs && r.value.controller
    ensures r.None? <==> forall ref :: ref in refs ==> !ref.controller
  {
    if refs == [] then None
    else if refs[0].controller then Some(refs[0])
    else ControllerOf(refs[1..])
  }

  predicate ControlledBy(refs: seq<OwnerRef>, uid: string) {
    ControllerOf(refs).Some? && ControllerOf(refs).value.uid == uid
  }

  /** Attaching finds another controller before any reference of the owner. */
  ghost predicate Conflicts(refs: seq<OwnerRef>, owner: OwnerRef) {
    exists k :: 0 <= k < |refs| && refs[k].controller && forall j :: 0 <= j <= k ==> refs[j].uid != owner.uid
  }

  ghost predicate Mentions(refs: seq<OwnerRef>, uid: string) {
    exists r :: r in refs && r.uid == uid
  }

  lemma {:induction false} FirstControllerAt(refs: seq<OwnerRef>, k: nat)
    requires k < |refs| && refs[k].controller && forall j :: 0 <= j < k ==> !refs[j].controller
    ensures ControllerOf(refs) == Some(refs[k])
  {
    if k > 0 {
      assert forall j :: 0 <= j < k - 1 ==> refs[1..][j] == refs[j + 1];
      FirstControllerAt(refs[1..], k - 1);
    }
  }

  lemma {:induction false} ControllerPosition(refs: seq<OwnerRef>) returns (k: nat)
    requires ControllerOf(refs).Some?
    ensures k < |refs| && refs[k] == ControllerOf(refs).value && forall j :: 0 <= j < k ==> !refs[j].controller
  {
    if refs[0].controller {
      k := 0;
    } else {
      k := ControllerPosition(refs[1..]);
      k := k + 1;
      assert forall j :: 1 <= j < k ==> refs[j] == refs[1..][j - 1];
    }
  }

  /** Accepts exactly the objects controlled by the owner. */
  method RequireManagedOwner(refs: seq<OwnerRef>, owner: OwnerRef) returns (ok: bool)
    ensures ok <==> ControlledBy(refs, owner.uid)
  {
    for i := 0 to |refs|
      invariant forall j :: 0 <= j < i ==> !refs[j].controller
    {
      if refs[i].controller {
        FirstControllerAt(refs, i);
      }
      if refs[i].uid == owner.uid && refs[i].controller {
        return true;
      }
      if refs[i].controller {
        return false;
      }
    }
    return false;
  }

  /** Attaches the owner, unless it is there already or another controller is. */
  method SetOwnerReference(refs: seq<OwnerRef>, owner: OwnerRef) returns (r: Option<seq<OwnerRef>>)
    ensures r.None? <==> Conflicts(refs, owner)
    ensures r.Some? ==> r.value == if Mentions(refs, owner.uid) then refs else refs + [owner]
    ensures r.Some? && !Mentions(refs, owner.uid) ==> ControllerOf(refs).None?
  {
    for i := 0 to |refs|
      invariant forall j :: 0 <= j < i ==> !refs[j].controller && refs[j].uid != owner.uid
    {
      if refs[i].uid == owner.uid {
        assert refs[i] in refs;
        return Some(refs);
      }
      if refs[i].controller {
        return None;
      }
    }
    return Some(refs + [owner]);
  }

  /** Once an object is known to be managed, attaching the same owner changes nothing and never fails. */
  lemma ManagedNeedsNoAttaching(refs: seq<OwnerRef>, owner: OwnerRef)
    requires ControlledBy(refs, owner.uid)
    ensures !Conflicts(refs, owner) && Mentions(refs, owner.uid)
  {
    var k := ControllerPosition(refs);
    assert refs[k] in refs;
  }

  /** An object newly given an owner is managed by it exactly when the owner is given as controller. */
  lemma NewOwnerManagesIffController(owner: OwnerRef)
    ensures ControlledBy([owner], owner.uid) <==> owner.controller
  {
    if owner.controller {
      FirstControllerAt([owner], 0);
    }
  }
}
