/** A declared root flow: the flow itself, its tree, and the realm bindings that use it. */
module AuthFlowRoot {
  import opened Wrappers
  import opened AuthFlowModel
  import opened AuthFlowStore
  import opened AuthFlowConditions
  import opened AuthFlowLemmas
  import opened AuthFlowSync

  /** The realm field that records a binding purpose. */
  function RealmField(binding: string): Option<string> {
    if binding == "browser" then Some("browserFlow")
    else if binding == "registration" then Some("registrationFlow")
    else if binding == "directGrant" then Some("directGrantFlow")
    else if binding == "resetCredentials" then Some("resetCredentialsFlow")
    else if binding == "clientAuthentication" then Some("clientAuthenticationFlow")
    else if binding == "dockerAuthentication" then Some("dockerAuthenticationFlow")
    else None
  }

  /** The realm records the flow for a purpose it knows in the field of that name. */
  ghost predicate Records(field: string, binding: string) {
    && binding in {"browser", "registration", "directGrant", "resetCredentials", "clientAuthentication",
                   "dockerAuthentication"}
    && field == binding + "Flow"
  }

  lemma RealmFieldMeans(binding: string, field: string)
    ensures RealmField(binding) == Some(field) <==> Records(field, binding)
  {
    assert RealmField(binding).Some? ==> RealmField(binding).value == binding + "Flow";
  }

  lemma RealmFieldsMean()
    ensures forall binding, field :: RealmField(binding) == Some(field) <==> Records(field, binding)
  {
    forall binding, field
      ensures RealmField(binding) == Some(field) <==> Records(field, binding)
    {
      RealmFieldMeans(binding, field);
    }
  }

  function StringValue(m: map<string, string>, key: string): string {
    if key in m then m[key] else ""
  }

  /** Every recognised binding points at `alias`. */
  ghost predicate Bound(realm: Option<map<string, string>>, alias: string, bindings: seq<string>) {
    bindings != [] ==>
      realm.Some? && forall b, field :: b in bindings && Records(field, b) ==> StringValue(realm.value, field) == alias
  }

  /** No realm field other than those of `bindings` changed, and a changed one points at `alias`. */
  ghost predicate OnlyBound(before: Option<map<string, string>>, after: Option<map<string, string>>, alias: string,
                            bindings: seq<string>) {
    before == after ||
    (before.Some? && after.Some? && before.value.Keys <= after.value.Keys
     && forall k :: k in after.value ==>
          (k in before.value && after.value[k] == before.value[k])
          || (after.value[k] == alias && exists b :: b in bindings && Records(k, b)))
  }

  method EnsureRootFlow(api: Keycloak, alias: string) returns (created: bool, err: Option<SyncError>)
    requires api.Valid()
    modifies api`flows, api`flowIds, api`writes
    ensures api.Valid() && Accounted(api)
    ensures err.None? ==> (created <==> api.writes != old(api.writes))
    ensures api.flows == old(api.flows) || (alias !in old(api.flows) && api.flows == old(api.flows)[alias := map[]])
    ensures err.None? ==> alias in api.flows
    ensures alias in old(api.flows) ==> api.writes == old(api.writes) && !created
    ensures api.reliable ==> err.None?
  {
    var flow := api.GetAuthFlow(alias);
    if flow.Failure? {
      return false, Some(flow.error);
    }
    if flow.value {
      return false, None;
    }
    var ok := api.CreateAuthFlow(alias);
    if !ok {
      return false, Some(RequestFailed);
    }
    return true, None;
  }

  /** Adds every entry of `base` that `update` does not override. */
  method Overlay(base: map<string, string>, update: map<string, string>) returns (r: map<string, string>)
    ensures r.Keys == base.Keys + update.Keys
    ensures forall k :: k in r ==> r[k] == if k in update then update[k] else base[k]
  {
    r := update;
    var todo := base.Keys;
    while todo != {}
      invariant todo <= base.Keys
      invariant r.Keys == update.Keys + (base.Keys - todo)
      invariant forall k :: k in r ==> r[k] == if k in update then update[k] else base[k]
      decreases todo
    {
      var k :| k in todo;
      todo := todo - {k};
      if k !in r {
        r := r[k := base[k]];
      }
    }
  }

  /** `update` holds exactly the recognised fields that do not yet name `alias`. */
  ghost predicate Drifted(rep: map<string, string>, alias: string, bindings: seq<string>, update: map<string, string>) {
    && (forall k :: k in update ==>
          update[k] == alias && StringValue(rep, k) != alias && exists b :: b in bindings && RealmField(b) == Some(k))
    && (forall b :: b in bindings && RealmField(b).Some? ==>
          RealmField(b).value in update || StringValue(rep, RealmField(b).value) == alias)
  }

  method FindDrift(rep: map<string, string>, alias: string, bindings: seq<string>) returns (update: map<string, string>)
    ensures Drifted(rep, alias, bindings, update)
  {
    update := map[];
    for i := 0 to |bindings|
      invariant Drifted(rep, alias, bindings[..i], update)
    {
      assert bindings[..i + 1] == bindings[..i] + [bindings[i]];
      var field := RealmField(bindings[i]);
      if field.Some? && StringValue(rep, field.value) != alias {
        update := update[field.value := alias];
      }
    }
    assert bindings[..|bindings|] == bindings;
  }

  lemma NoDrift(rep: map<string, string>, alias: string, bindings: seq<string>, update: map<string, string>)
    requires Drifted(rep, alias, bindings, update)
    ensures |update| == 0 ==> Bound(Some(rep), alias, bindings)
    ensures bindings != [] && Bound(Some(rep), alias, bindings) ==> update == map[]
  {
    hide Records, RealmField;
    RealmFieldsMean();
  }

  lemma DriftCorrected(rep: map<string, string>, alias: string, bindings: seq<string>,
                       drift: map<string, string>, update: map<string, string>)
    requires Drifted(rep, alias, bindings, drift) && bindings != []
    requires update.Keys == rep.Keys + drift.Keys
    requires forall k :: k in update ==> update[k] == if k in drift then drift[k] else rep[k]
    ensures Bound(Some(update), alias, bindings) && OnlyBound(Some(rep), Some(update), alias, bindings)
    ensures Bound(Some(rep), alias, bindings) ==> drift == map[]
  {
    hide Records, RealmField;
    RealmFieldsMean();
  }

  method ReconcileBindings(api: Keycloak, alias: string, bindings: seq<string>)
    returns (changed: bool, err: Option<SyncError>)
    modifies api`realm, api`writes
    ensures err.None? ==> (changed <==> api.writes != old(api.writes))
    ensures old(api.writes) <= api.writes && (api.writes == old(api.writes) ==> api.realm == old(api.realm))
    ensures OnlyBound(old(api.realm), api.realm, alias, bindings)
    ensures err.None? ==> Bound(api.realm, alias, bindings)
    ensures Bound(old(api.realm), alias, bindings) ==> api.writes == old(api.writes) && !changed
    ensures api.reliable && (bindings == [] || old(api.realm).Some?) ==> err.None?
  {
    hide Drifted, OnlyBound;
    RealmUntouched(api.realm, alias, bindings);
    if |bindings| == 0 {
      return false, None;
    }
    var realm := api.GetRealm();
    if realm.Failure? {
      return false, Some(realm.error);
    }
    if realm.value.None? {
      return false, Some(RequestFailed);
    }
    var rep := realm.value.value;
    var update := FindDrift(rep, alias, bindings);
    if |update| == 0 {
      NoDrift(rep, alias, bindings, update);
      return false, None;
    }
    assert exists k :: k in update;
    ghost var drift := update;
    update := Overlay(rep, update);
    DriftCorrected(rep, alias, bindings, drift, update);
    var ok := api.UpdateRealm(update);
    if !ok {
      return false, Some(RequestFailed);
    }
    return true, None;
  }

  /** Nothing at Keycloak is different, and no request was sent that asks for a change. */
  twostate predicate Untouched(api: Keycloak)
    reads api
  {
    && api.flows == old(api.flows) && api.flowIds == old(api.flowIds) && api.realm == old(api.realm)
    && api.writes == old(api.writes)
  }

  /**
   One reconciliation of a declared root flow. On a well-posed input an error-free
   pass leaves the tree calm and the bindings in place; where they already are,
   nothing is sent. When no request fails, a pass over a tree that can be built is
   free of errors.
   */
  method ReconcileFlow(api: Keycloak, alias: string, executions: seq<FlowExecution>, bindings: seq<string>)
    returns (created: bool, updated: bool, err: Option<SyncError>)
    requires api.Valid()
    modifies api
    ensures api.Valid() && old(api.writes) <= api.writes
    ensures SameExcept(old(api.flows), api.flows, {alias} + TreeAliases(executions))
    ensures OnlyBound(old(api.realm), api.realm, alias, bindings)
    ensures err.None? ==> (created || updated <==> api.writes != old(api.writes))
    ensures UniqueAliases(alias, executions) && err.None? ==> Counted(api.flows, alias, executions)
    ensures WellPosed(old(api.flows), alias, executions) && err.None? ==>
              Calm(api.flows, api.flowIds, alias, executions) && Bound(api.realm, alias, bindings)
    ensures Calm(old(api.flows), old(api.flowIds), alias, executions) && Bound(old(api.realm), alias, bindings) ==>
              Untouched(api) && !created && !updated
    ensures UniqueAliases(alias, executions) && Bare(old(api.flows), alias, executions) && err.None? ==>
              AllNew(api.flows, api.labels, alias, executions)
    ensures api.reliable && UniqueAliases(alias, executions)
            && Buildable(old(api.flows), old(api.flowIds), alias, executions)
            && (bindings == [] || old(api.realm).Some?) ==>
              err.None?
  {
    hide Buildable, WellKeyed, Posed, UniqueAliases, Calm, CalmBy, Counted, TreeAliases, OnlyBound, Bound, Bare, AllNew;
    created, updated := false, false;
    ghost var flows, flowIds := api.flows, api.flowIds;
    if Calm(flows, flowIds, alias, executions) {
      CalmIsConverged(flows, flowIds, alias, executions);
    }
    var rootCreated, rootErr := EnsureRootFlow(api, alias);
    if rootErr.Some? {
      RealmUntouched(api.realm, alias, bindings);
      return created, updated, rootErr;
    }
    if alias !in flows {
      if UniqueAliases(alias, executions) && Bare(flows, alias, executions) {
        EmptyFlowStaysBare(flows, alias, executions);
      }
      if WellPosed(flows, alias, executions) {
        EmptyFlowStaysPosed(flows, alias, executions);
      }
      if UniqueAliases(alias, executions) && Buildable(flows, flowIds, alias, executions) {
        EmptyFlowStaysBuildable(flows, flowIds, api.flowIds, alias, executions);
      }
    }
    var treeCreated, treeUpdated, treeErr := ReconcileFlowExecutions(api, alias, executions);
    created, updated := rootCreated || treeCreated, treeUpdated;
    if treeErr.Some? {
      RealmUntouched(api.realm, alias, bindings);
      return created, updated, treeErr;
    }
    var boundChanged, boundErr := ReconcileBindings(api, alias, bindings);
    updated := updated || boundChanged;
    err := boundErr;
  }

  lemma EmptyFlowStaysBare(flows: Flows, alias: string, desired: seq<FlowExecution>)
    requires UniqueAliases(alias, desired) && Bare(flows, alias, desired)
    ensures Bare(flows[alias := map[]], alias, desired)
  {
  }

  lemma RealmUntouched(realm: Option<map<string, string>>, alias: string, bindings: seq<string>)
    ensures OnlyBound(realm, realm, alias, bindings)
  {
  }

  lemma BoundHasRealm(realm: Option<map<string, string>>, alias: string, bindings: seq<string>)
    requires Bound(realm, alias, bindings)
    ensures bindings == [] || realm.Some?
  {
  }

  /**
   Quiescence of the whole reconciliation: once the tree is calm and the bindings are
   in place, as an error-free pass over a well-posed input leaves them, no number of
   later passes changes anything, whatever of them fails. `quiet` says that none
   reported a creation or an update; when no request fails, none reports an error.
   */
  method ReconcileFlowAgain(api: Keycloak, alias: string, executions: seq<FlowExecution>, bindings: seq<string>,
                            passes: nat)
    returns (quiet: bool, failed: bool)
    requires api.Valid() && Calm(api.flows, api.flowIds, alias, executions) && Bound(api.realm, alias, bindings)
    modifies api
    ensures Untouched(api) && quiet
    ensures api.reliable && UniqueAliases(alias, executions) ==> !failed
  {
    hide Buildable, Calm, Bound, OnlyBound, SameExcept, WellKeyed, Counted, UniqueAliases;
    quiet, failed := true, false;
    CalmIsBuildable(api.flows, api.flowIds, alias, executions);
    BoundHasRealm(api.realm, alias, bindings);
    for n := 0 to passes
      invariant Untouched(api) && quiet
      invariant api.reliable && UniqueAliases(alias, executions) ==> !failed
    {
      var created, updated, err := ReconcileFlow(api, alias, executions, bindings);
      quiet, failed := quiet && !created && !updated, failed || err.Some?;
    }
  }

  /** Where none of its flows exists and no request fails, one pass builds the declared tree; then nothing changes. */
  method BuildFromNothing(api: Keycloak, alias: string, executions: seq<FlowExecution>, bindings: seq<string>,
                          passes: nat)
    returns (err: Option<SyncError>, quiet: bool, failed: bool)
    requires api.Valid() && api.reliable && (bindings == [] || api.realm.Some?)
    requires Bare(api.flows, alias, executions)
    requires UniqueAliases(alias, executions) && AllApart(executions) && AllNamed(executions)
    modifies api
    ensures err.None? && quiet && !failed
    ensures Calm(api.flows, api.flowIds, alias, executions) && Counted(api.flows, alias, executions)
    ensures Bound(api.realm, alias, bindings)
    ensures SameExcept(old(api.flows), api.flows, {alias} + TreeAliases(executions))
  {
    hide Buildable, Calm, Bound, OnlyBound, WellKeyed, Counted, UniqueAliases, AllApart, AllNamed;
    NothingThere(api.flows, api.flowIds, alias, executions);
    var created, updated;
    created, updated, err := ReconcileFlow(api, alias, executions, bindings);
    quiet, failed := ReconcileFlowAgain(api, alias, executions, bindings, passes);
  }

  /**
   The converse: where none of its flows exists and some siblings are not apart, there
   are labels to show (`UnapartMisleads`) under which every pass ends without an error,
   and no pass ends calm.
   */
  method BuildMisled(api: Keycloak, alias: string, executions: seq<FlowExecution>, bindings: seq<string>,
                     ghost labels: set<string>)
    returns (err: Option<SyncError>)
    requires api.Valid() && api.reliable && (bindings == [] || api.realm.Some?)
    requires Bare(api.flows, alias, executions)
    requires UniqueAliases(alias, executions) && AllNamed(executions)
    requires api.labels == Some(labels) && MisleadingTree(labels, executions)
    modifies api
    ensures err.None? && AllNew(api.flows, api.labels, alias, executions)
    ensures Counted(api.flows, alias, executions) && !Calm(api.flows, api.flowIds, alias, executions)
  {
    hide Buildable, Calm, Bound, OnlyBound, WellKeyed, Counted, UniqueAliases, AllApart, AllNamed, AllNew,
         MisleadingTree;
    NothingThere(api.flows, api.flowIds, alias, executions);
    var created, updated;
    created, updated, err := ReconcileFlow(api, alias, executions, bindings);
    MisledIsNeverCalm(api.flows, api.flowIds, labels, alias, executions);
  }
}
