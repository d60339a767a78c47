/** The reconciliation of a flow with its declared tree, request by request. */
module AuthFlowSync {
  import opened Wrappers
  import opened Sequences
  import opened AuthFlowModel
  import opened AuthFlowStore
  import opened AuthFlowLemmas

  /** Flow `alias` holds an execution with the ID of `e`. */
  ghost predicate Has(flows: Flows, alias: string, e: Execution) {
    alias in flows && e.id in flows[alias]
  }

  /** Flow `alias` holds exactly `e`. */
  ghost predicate Holds(flows: Flows, alias: string, e: Execution) {
    Has(flows, alias, e) && flows[alias][e.id] == e
  }

  /** No alias occurs twice in the subflow of `want`. */
  ghost predicate UniqueTree(want: FlowExecution) {
    want.flow.Some? ==> UniqueAliases(want.flow.value.alias, want.flow.value.executions)
  }

  /** The subflow of `want` is empty if it exists, and none declared below it does. */
  ghost predicate BareBelow(flows: Flows, want: FlowExecution) {
    want.flow.Some? ==> Bare(flows, want.flow.value.alias, want.flow.value.executions)
  }

  ghost predicate NewBelow(flows: Flows, labels: Option<set<string>>, want: FlowExecution) {
    want.flow.Some? ==> AllNew(flows, labels, want.flow.value.alias, want.flow.value.executions)
  }

  /** A new execution for `want`, whose subflow is empty. */
  ghost predicate JustNew(flows: Flows, labels: Option<set<string>>, want: FlowExecution, e: Execution) {
    && NewFor(e, want) && BareBelow(flows, want)
    && (want.flow.Some? ==> ShownAs(labels, want.flow.value.alias, e.alias))
  }

  /** Requests only ever change what their count accounts for. */
  twostate predicate Accounted(api: Keycloak)
    reads api
  {
    && old(api.writes) <= api.writes
    && (api.writes == old(api.writes) ==> api.flows == old(api.flows) && api.flowIds == old(api.flowIds))
    && Extends(old(api.flowIds), api.flowIds)
    && api.realm == old(api.realm)
  }

  method MatchingExecution(live: seq<Execution>, want: FlowExecution, used: set<string>) returns (r: Option<Execution>)
    ensures r == Match(live, want, used)
  {
    if want.flow.Some? {
      for i := 0 to |live|
        invariant First(Subflow, live, want, used) == First(Subflow, live[i..], want, used)
      {
        if Fits(Subflow, live[i], want) && live[i].id !in used {
          return Some(live[i]);
        }
      }
      return None;
    }
    for i := 0 to |live|
      invariant First(ByAlias, live, want, used) == First(ByAlias, live[i..], want, used)
    {
      if Fits(ByAlias, live[i], want) && live[i].id !in used {
        return Some(live[i]);
      }
    }
    for i := 0 to |live|
      invariant First(ByAuthenticator, live, want, used) == First(ByAuthenticator, live[i..], want, used)
    {
      if Fits(ByAuthenticator, live[i], want) && live[i].id !in used {
        return Some(live[i]);
      }
    }
    return None;
  }

  /** Finds the execution for `want`, creating it when none is left to claim. */
  method ClaimExecution(api: Keycloak, alias: string, want: FlowExecution, live: seq<Execution>, kept: set<string>)
    returns (current: Option<Execution>, rows: seq<Execution>, created: bool, err: Option<SyncError>,
             ghost added: Execution)
    requires api.Valid()
    modifies api
    ensures api.Valid() && Accounted(api)
    ensures SameExcept(old(api.flows), api.flows, {alias} + Aliases(want))
    ensures err.None? ==> (created <==> api.writes != old(api.writes))
    ensures err.None? ==> current.Some? && current == Match(rows, want, kept)
    ensures err.None? && !created ==> rows == live
    ensures err.None? && created ==>
              && Added(old(api.flows), api.flows, alias, want, added) && (want.flow.None? ==> want.authenticator != "")
              && alias in api.flows && Listing(api.flows[alias], rows)
    ensures Match(live, want, kept).Some? ==> err.None? && !created
    ensures err.None? && created && want.flow.Some? ==>
              && added.flowId != "" && added.flowId in api.flowIds
              && api.flowIds[added.flowId] == want.flow.value.alias
              && ShownAs(api.labels, want.flow.value.alias, added.alias)
    ensures api.reliable && alias in old(api.flows) && kept <= old(api.flows)[alias].Keys
            && (if want.flow.Some? then want.flow.value.alias !in old(api.flows) else want.authenticator != "") ==>
              err.None?
  {
    hide Listing, WellKeyed, Match, NewFor, Unused;
    created, rows := false, live;
    added := *;
    current := MatchingExecution(rows, want, kept);
    if current.None? && want.flow.Some? {
      var f := want.flow.value;
      var ok;
      ok, added := api.CreateSubflow(alias, f, want);
      if !ok {
        return current, rows, created, Some(RequestFailed), added;
      }
      created := true;
      var listed := api.ListDirectExecutions(alias);
      if listed.Failure? {
        return current, rows, created, Some(listed.error), added;
      }
      rows := Executed(listed.value);
      if alias in old(api.flows) && kept <= old(api.flows)[alias].Keys {
        AddedIsFound(old(api.flows), api.flows, alias, want, added, rows, kept);
      }
      current := MatchingExecution(rows, want, kept);
    } else if current.None? {
      if want.authenticator == "" {
        return current, rows, created, Some(NeitherFlowNorAuthenticator), added;
      }
      var ok;
      ok, added := api.CreateExecution(alias, want.authenticator, want);
      if !ok {
        return current, rows, created, Some(RequestFailed), added;
      }
      created := true;
      var listed := api.ListDirectExecutions(alias);
      if listed.Failure? {
        return current, rows, created, Some(listed.error), added;
      }
      rows := Executed(listed.value);
      if alias in old(api.flows) && kept <= old(api.flows)[alias].Keys {
        AddedIsFound(old(api.flows), api.flows, alias, want, added, rows, kept);
      }
      current := MatchingExecution(rows, want, kept);
    }
    if current.None? {
      return current, rows, created, Some(CreatedButNotFound), added;
    }
    err := None;
  }

  method ReconcileAuthenticatorConfig(api: Keycloak, alias: string, execution: Execution, desired: AuthConfig)
    returns (changed: bool, err: Option<SyncError>)
    requires api.Valid()
    modifies api`flows, api`writes
    ensures api.Valid() && Accounted(api)
    ensures err.None? ==> (changed <==> api.writes != old(api.writes))
    ensures SameExcept(old(api.flows), api.flows, {alias})
    ensures Has(old(api.flows), alias, execution) ==>
              Has(api.flows, alias, execution)
              && api.flows[alias] == old(api.flows)[alias][execution.id := api.flows[alias][execution.id]]
    ensures Has(old(api.flows), alias, execution) && old(api.flows)[alias][execution.id].config == execution.config
            && err.None? ==>
              var before, after := old(api.flows)[alias][execution.id], api.flows[alias][execution.id];
              && after.config.Some? && Says(after.config.value, desired)
              && after == before.(config := after.config, alias := after.alias)
              && (after.alias == before.alias || after.alias == desired.alias)
              && (before.config.None? && before.alias == "" ==> ShownAs(api.labels, desired.alias, after.alias))
    ensures Has(old(api.flows), alias, execution)
            && old(api.flows)[alias][execution.id].config == execution.config
            && execution.config.Some? && Says(execution.config.value, desired) ==>
              api.writes == old(api.writes)
    ensures api.reliable && Has(old(api.flows), alias, execution)
            && old(api.flows)[alias][execution.id].config == execution.config ==>
              err.None?
  {
    var want := Wanted(desired);
    if execution.config.None? {
      var ok, e := api.WriteAuthenticatorConfig(alias, execution.id, want);
      return true, if ok then None else Some(RequestFailed);
    }
    var live := api.GetAuthenticatorConfig(alias, execution.id);
    if live.Failure? {
      return false, Some(live.error);
    }
    if Has(old(api.flows), alias, execution) && Says(live.value, desired) {
      SaidIsDetermined(live.value, want, desired);
    }
    if live.value.alias == want.alias && live.value.values == want.values {
      return false, None;
    }
    var ok, e := api.WriteAuthenticatorConfig(alias, execution.id, want);
    return true, if ok then None else Some(RequestFailed);
  }

  /** Writes the declared requirement, if any, unless the execution already has it. */
  method SettleRequirement(api: Keycloak, alias: string, want: FlowExecution, current: Execution)
    returns (changed: bool, err: Option<SyncError>)
    requires api.Valid()
    modifies api`flows, api`writes
    ensures api.Valid() && Accounted(api)
    ensures SameExcept(old(api.flows), api.flows, {alias})
    ensures err.None? ==> (changed <==> api.writes != old(api.writes))
    ensures Has(old(api.flows), alias, current) ==>
              Has(api.flows, alias, current)
              && api.flows[alias] == old(api.flows)[alias][current.id := api.flows[alias][current.id]]
    ensures Has(old(api.flows), alias, current) && old(api.flows)[alias][current.id] == current && err.None? ==>
              var e := api.flows[alias][current.id];
              && e == current.(requirement := e.requirement, priority := e.priority)
              && e.requirement == (if want.requirement != "" then want.requirement else current.requirement)
    ensures want.requirement == "" || want.requirement == current.requirement ==>
              api.writes == old(api.writes) && !changed
    ensures api.reliable && Has(old(api.flows), alias, current) ==> err.None?
  {
    if want.requirement == "" || want.requirement == current.requirement {
      return false, None;
    }
    var ok, e := api.UpdateExecutionRequirement(alias, current.id, want.requirement);
    return ok, if ok then None else Some(RequestFailed);
  }

  /** Checks that the execution points at the declared subflow, and reconciles that. */
  method ReconcileSubflow(api: Keycloak, want: FlowExecution, current: Execution)
    returns (created: bool, updated: bool, err: Option<SyncError>)
    requires api.Valid() && want.flow.Some?
    modifies api
    decreases want, 0
    ensures api.Valid() && Accounted(api)
    ensures SameExcept(old(api.flows), api.flows, Aliases(want))
    ensures err.None? ==> (created || updated <==> api.writes != old(api.writes))
    ensures err.None? ==>
              && current.flowId != "" && current.flowId in api.flowIds
              && api.flowIds[current.flowId] == want.flow.value.alias
    ensures err.None? && UniqueTree(want) ==>
              Counted(api.flows, want.flow.value.alias, want.flow.value.executions)
    ensures err.None? && UniqueTree(want) && PosedBelow(old(api.flows), want) ==>
              CalmBelow(api.flows, api.flowIds, want)
    ensures CalmBelow(old(api.flows), old(api.flowIds), want) ==>
              api.writes == old(api.writes) && !created && !updated
    ensures err.None? && UniqueTree(want) && BareBelow(old(api.flows), want) ==> NewBelow(api.flows, api.labels, want)
    ensures api.reliable && UniqueTree(want) && Linked(old(api.flows), old(api.flowIds), want, current) ==> err.None?
  {
    hide Calm, CalmBy, WellKeyed, Posed, UniqueAliases, Counted, TreeAliases, Buildable, Bare, AllNew;
    var f := want.flow.value;
    if current.flowId == "" {
      return false, false, Some(NoFlowId);
    }
    var child := api.GetAuthFlowById(current.flowId);
    if child.Failure? {
      return false, false, Some(child.error);
    }
    if child.value != f.alias {
      return false, false, Some(WrongSubflow);
    }
    created, updated, err := ReconcileFlowExecutions(api, f.alias, f.executions);
  }

  /** What `SettleExecution` needs of the subflow of `want` is not affected by a change in flow `alias`. */
  lemma BelowUntouched(before: Flows, after: Flows, ids: map<string, string>, alias: string, want: FlowExecution,
                       current: Execution)
    requires SameExcept(before, after, {alias}) && alias !in Aliases(want)
    ensures PosedBelow(before, want) ==> PosedBelow(after, want)
    ensures Linked(before, ids, want, current) ==> Linked(after, ids, want, current)
    ensures BareBelow(before, want) ==> BareBelow(after, want)
  {
    hide Posed, Buildable;
    if want.flow.Some? {
      var f := want.flow.value;
      if PosedBelow(before, want) {
        PosedFrame(before, after, {alias}, f.alias, f.executions);
      }
      if Linked(before, ids, want, current) {
        BuildableFrame(before, after, ids, ids, {alias}, f.alias, f.executions);
      }
    }
  }

  /** Once it points at the declared subflow, which is calm, an execution carries the entry. */
  lemma SubflowCarries(flows: Flows, flowIds: map<string, string>, e: Execution, want: FlowExecution)
    requires want.flow.Some? && CalmBelow(flows, flowIds, want)
    requires want.requirement != "" ==> e.requirement == want.requirement
    requires e.flowId != "" && e.flowId in flowIds && flowIds[e.flowId] == want.flow.value.alias
    ensures Carries(flows, flowIds, e, want)
  {
    hide Calm, Converged;
    CalmIsConverged(flows, flowIds, want.flow.value.alias, want.flow.value.executions);
  }

  /** Brings the claimed execution, and the subflow it points to, in line with `want`. */
  method SettleExecution(api: Keycloak, alias: string, want: FlowExecution, current: Execution)
    returns (created: bool, updated: bool, err: Option<SyncError>)
    requires api.Valid()
    modifies api
    decreases want, 1
    ensures api.Valid() && Accounted(api)
    ensures SameExcept(old(api.flows), api.flows, {alias} + Aliases(want))
    ensures err.None? ==> (created || updated <==> api.writes != old(api.writes))
    ensures alias !in Aliases(want) && Has(old(api.flows), alias, current) ==>
              Has(api.flows, alias, current)
              && api.flows[alias] == old(api.flows)[alias][current.id := api.flows[alias][current.id]]
    ensures err.None? && want.flow.Some? && UniqueTree(want) ==>
              Counted(api.flows, want.flow.value.alias, want.flow.value.executions)
    ensures err.None? && alias !in Aliases(want) && Holds(old(api.flows), alias, current) ==>
              Kin(current, api.flows[alias][current.id], want)
    ensures err.None? && alias !in Aliases(want) && Holds(old(api.flows), alias, current)
            && UniqueTree(want) && PosedBelow(old(api.flows), want) ==>
              && Carries(api.flows, api.flowIds, api.flows[alias][current.id], want)
              && CalmBelow(api.flows, api.flowIds, want)
    ensures err.None? && alias !in Aliases(want) && Holds(old(api.flows), alias, current)
            && UniqueTree(want) && JustNew(old(api.flows), api.labels, want, current) ==>
              IsNew(api.labels, want, api.flows[alias][current.id]) && NewBelow(api.flows, api.labels, want)
    ensures Holds(old(api.flows), alias, current) && Carries(old(api.flows), old(api.flowIds), current, want)
            && CalmBelow(old(api.flows), old(api.flowIds), want) ==>
              api.writes == old(api.writes) && !created && !updated
    ensures api.reliable && alias !in Aliases(want) && Holds(old(api.flows), alias, current)
            && UniqueTree(want) && Linked(old(api.flows), old(api.flowIds), want, current) ==>
              err.None?
  {
    hide Converged, Calm, WellKeyed, Posed, UniqueAliases, Counted, TreeAliases, Linked, UniqueTree, PosedBelow, Bare,
         AllNew, ShownAs;
    created, updated, err := false, false, None;
    ghost var flows, flowIds := api.flows, api.flowIds;
    var changed, requirementErr := SettleRequirement(api, alias, want, current);
    updated := changed;
    if requirementErr.Some? {
      return created, updated, requirementErr;
    }
    if want.flow.Some? {
      if alias !in Aliases(want) {
        BelowUntouched(flows, api.flows, api.flowIds, alias, want, current);
      }
      ghost var settled := api.flows;
      var childCreated, childUpdated, childErr := ReconcileSubflow(api, want, current);
      if childErr.Some? {
        return created, updated, childErr;
      }
      created, updated := created || childCreated, updated || childUpdated;
      if alias !in Aliases(want) && Holds(flows, alias, current) && UniqueTree(want) && PosedBelow(flows, want) {
        assert api.flows[alias] == settled[alias];
        SubflowCarries(api.flows, api.flowIds, api.flows[alias][current.id], want);
      }
    } else if want.config.Some? {
      var configured, configErr := ReconcileAuthenticatorConfig(api, alias, current, want.config.value);
      if configErr.Some? {
        return created, updated, configErr;
      }
      updated := updated || configured;
    }
  }

  /** Deletes every execution of the flow that no declared entry claimed. */
  method DeleteUnclaimed(api: Keycloak, alias: string, kept: set<string>)
    returns (deleted: bool, err: Option<SyncError>)
    requires api.Valid()
    modifies api`flows, api`writes
    ensures api.Valid() && Accounted(api)
    ensures SameExcept(old(api.flows), api.flows, {alias})
    ensures err.None? ==> (deleted <==> api.writes != old(api.writes))
    ensures alias in old(api.flows) ==> alias in api.flows && Trimmed(old(api.flows)[alias], api.flows[alias], kept)
    ensures err.None? ==> alias in api.flows && api.flows[alias].Keys <= kept
    ensures alias in old(api.flows) && old(api.flows)[alias].Keys <= kept ==> api.writes == old(api.writes) && !deleted
    ensures api.reliable && alias in old(api.flows) ==> err.None?
  {
    hide Trimmed, TrimmedUpTo, WellKeyed, Listing;
    deleted := false;
    ghost var flows := api.flows;
    var listed := api.ListDirectExecutions(alias);
    if listed.Failure? {
      if alias in flows {
        NothingTrimmed(flows[alias], kept);
      }
      return deleted, Some(listed.error);
    }
    var live := Executed(listed.value);
    TrimStart(flows, alias, live, kept);
    TrimEffect(flows, flows, alias, live, kept, 0);
    for i := 0 to |live|
      invariant api.Valid() && Accounted(api)
      invariant deleted <==> api.writes != old(api.writes)
      invariant TrimmedUpTo(flows, api.flows, alias, live, kept, i)
      invariant deleted ==> exists j :: 0 <= j < i && live[j].id !in kept
    {
      if live[i].id !in kept {
        ghost var before := api.flows;
        var ok := api.DeleteExecution(live[i].id);
        TrimEffect(flows, before, alias, live, kept, i);
        if ok || api.flows != before {
          TrimDelete(flows, before, api.flows, alias, live, kept, i);
          TrimEffect(flows, api.flows, alias, live, kept, i + 1);
        }
        if !ok {
          return deleted, Some(RequestFailed);
        }
        deleted := true;
      } else {
        TrimSkip(flows, api.flows, alias, live, kept, i);
      }
    }
    TrimEffect(flows, api.flows, alias, live, kept, |live|);
    err := None;
  }

  ghost predicate Ascending(rows: seq<Listed>) {
    forall i, j :: 0 <= i < j < |rows| ==> rows[i].index <= rows[j].index
  }

  /** Where a row goes: after the rows of no greater index. */
  method InsertionPoint(sorted: seq<Listed>, index: int) returns (at: nat)
    ensures at <= |sorted| && (at > 0 ==> sorted[at - 1].index <= index)
    ensures forall i :: at <= i < |sorted| ==> index < sorted[i].index
  {
    at := |sorted|;
    while at > 0 && sorted[at - 1].index > index
      invariant at <= |sorted|
      invariant forall i :: at <= i < |sorted| ==> index < sorted[i].index
    {
      at := at - 1;
    }
  }

  /** Sorts by the reported index. */
  method SortByIndex(rows: seq<Listed>) returns (sorted: seq<Listed>)
    ensures multiset(sorted) == multiset(rows) && Ascending(sorted)
  {
    sorted := [];
    assert Ascending(sorted);
    hide Ascending, Inserted;
    for n := 0 to |rows|
      invariant multiset(sorted) == multiset(rows[..n]) && Ascending(sorted)
    {
      var at := InsertionPoint(sorted, rows[n].index);
      InsertAscending(sorted, at, rows[n]);
      OneMoreRow(rows, n);
      sorted := Inserted(sorted, at, rows[n]);
    }
    assert rows[..|rows|] == rows;
  }

  lemma OneMoreRow(rows: seq<Listed>, n: nat)
    requires n < |rows|
    ensures multiset(rows[..n + 1]) == multiset(rows[..n]) + multiset{rows[n]}
  {
    assert rows[..n + 1] == rows[..n] + [rows[n]];
  }

  function Inserted(sorted: seq<Listed>, at: nat, row: Listed): seq<Listed>
    requires at <= |sorted|
  {
    sorted[..at] + [row] + sorted[at..]
  }

  lemma InsertAscending(sorted: seq<Listed>, at: nat, row: Listed)
    requires Ascending(sorted) && at <= |sorted|
    requires at > 0 ==> sorted[at - 1].index <= row.index
    requires forall i :: at <= i < |sorted| ==> row.index < sorted[i].index
    ensures Ascending(Inserted(sorted, at, row))
    ensures multiset(Inserted(sorted, at, row)) == multiset(sorted) + multiset{row}
  {
    hide Ascending;
    InsertKeepsRows(sorted, at, row);
    InsertKeepsOrder(sorted, at, row, Inserted(sorted, at, row));
  }

  lemma InsertKeepsRows(sorted: seq<Listed>, at: nat, row: Listed)
    requires at <= |sorted|
    ensures multiset(sorted[..at] + [row] + sorted[at..]) == multiset(sorted) + multiset{row}
  {
    assert sorted == sorted[..at] + sorted[at..];
  }

  lemma InsertKeepsOrder(sorted: seq<Listed>, at: nat, row: Listed, longer: seq<Listed>)
    requires Ascending(sorted) && at <= |sorted| && |longer| == |sorted| + 1
    requires at > 0 ==> sorted[at - 1].index <= row.index
    requires forall i :: at <= i < |sorted| ==> row.index < sorted[i].index
    requires forall i :: 0 <= i < at ==> longer[i] == sorted[i]
    requires longer[at] == row && forall i :: at < i < |longer| ==> longer[i] == sorted[i - 1]
    ensures Ascending(longer)
  {
    forall i, j | 0 <= i < j < |longer|
      ensures longer[i].index <= longer[j].index
    {
      assert i < at ==> longer[i].index <= row.index;
      assert j > at ==> row.index <= longer[j].index;
    }
  }

  /** Reordering a listing yields a listing. */
  lemma SortedListing(es: Executions, rows: seq<Listed>, sorted: seq<Listed>)
    requires Listing(es, Executed(rows)) && multiset(sorted) == multiset(rows)
    ensures Listing(es, Executed(sorted))
  {
    forall e | e in Executed(sorted)
      ensures e.id in es && es[e.id] == e
    {
      var i :| 0 <= i < |sorted| && sorted[i].execution == e;
      assert sorted[i] in multiset(rows);
      var j :| 0 <= j < |rows| && rows[j] == sorted[i];
      assert Executed(rows)[j] == e;
    }
    forall id | id in es
      ensures es[id] in Executed(sorted)
    {
      var j :| 0 <= j < |rows| && Executed(rows)[j] == es[id];
      assert rows[j] in multiset(sorted);
      var i :| 0 <= i < |sorted| && sorted[i] == rows[j];
      assert Executed(sorted)[i] == es[id];
    }
    forall i, j | 0 <= i < j < |sorted|
      ensures Executed(sorted)[i].id != Executed(sorted)[j].id
    {
      SortedApart(rows, sorted, i, j);
    }
  }

  lemma OccursAgain(rows: seq<Listed>, p: nat, x: Listed) returns (q: nat)
    requires p < |rows| && rows[p] == x && multiset(rows)[x] >= 2
    ensures q < |rows| && q != p && rows[q] == x
  {
    var rest := rows[..p] + rows[p + 1..];
    assert rows == rows[..p] + [x] + rows[p + 1..];
    assert multiset(rows) == multiset(rest) + multiset{x};
    assert x in multiset(rest);
    var r :| 0 <= r < |rest| && rest[r] == x;
    q := if r < p then r else r + 1;
  }

  lemma TwiceCounted(rows: seq<Listed>, i: nat, j: nat)
    requires i < j < |rows| && rows[i] == rows[j]
    ensures multiset(rows)[rows[i]] >= 2
  {
    assert rows == rows[..j] + rows[j..] && rows[..j][i] == rows[j..][0] == rows[i];
  }

  /** Two places of the sorted listing come from two places of the other. */
  lemma SortedApart(rows: seq<Listed>, sorted: seq<Listed>, i: nat, j: nat)
    requires multiset(sorted) == multiset(rows) && i < j < |sorted|
    requires forall p, q :: 0 <= p < q < |rows| ==> Executed(rows)[p].id != Executed(rows)[q].id
    ensures sorted[i].execution.id != sorted[j].execution.id
  {
    assert sorted[i] in multiset(rows) && sorted[j] in multiset(rows);
    var p :| 0 <= p < |rows| && rows[p] == sorted[i];
    var q :| 0 <= q < |rows| && rows[q] == sorted[j];
    if p == q {
      TwiceCounted(sorted, i, j);
      q := OccursAgain(rows, p, sorted[i]);
    }
    assert p < q ==> Executed(rows)[p].id != Executed(rows)[q].id;
    assert q < p ==> Executed(rows)[q].id != Executed(rows)[p].id;
  }

  method ListInOrder(api: Keycloak, alias: string) returns (r: Result<seq<Execution>, SyncError>)
    requires api.Valid()
    ensures r.Success? ==> alias in api.flows && Listing(api.flows[alias], r.value)
    ensures api.reliable && alias in api.flows ==> r.Success?
  {
    var listed := api.ListDirectExecutions(alias);
    if listed.Failure? {
      return Failure(listed.error);
    }
    var sorted := SortByIndex(listed.value);
    SortedListing(api.flows[alias], listed.value, sorted);
    return Success(Executed(sorted));
  }

  /** Writes the priority of one execution, unless it already has it. */
  method SetPriority(api: Keycloak, alias: string, current: Execution, priority: int)
    returns (changed: bool, err: Option<SyncError>)
    requires api.Valid()
    modifies api`flows, api`writes
    ensures api.Valid() && Accounted(api)
    ensures SameExcept(old(api.flows), api.flows, {alias})
    ensures err.None? ==> (changed <==> api.writes != old(api.writes))
    ensures alias in old(api.flows) ==> alias in api.flows && api.flows[alias].Keys == old(api.flows)[alias].Keys
    ensures err.None? && Has(old(api.flows), alias, current) && old(api.flows)[alias][current.id] == current ==>
              api.flows[alias] == old(api.flows)[alias][current.id := current.(priority := priority)]
    ensures current.priority == priority ==> api.writes == old(api.writes) && !changed && err.None?
    ensures current.priority != priority ==> api.writes == old(api.writes) + 1
    ensures api.reliable && Has(old(api.flows), alias, current) ==> err.None?
  {
    if current.priority == priority {
      return false, None;
    }
    var ok, e := api.UpdateExecution(alias, current.(priority := priority));
    return ok, if ok then None else Some(RequestFailed);
  }

  lemma MatchIsThere(es: Executions, live: seq<Execution>, want: FlowExecution, used: set<string>)
    requires Fresh(es, live, {})
    ensures Match(live, want, used).Some? ==> Match(live, want, used).value.id in es
  {
    MatchFinds(live, want, used);
  }

  lemma QuietStep(live: seq<Execution>, desired: seq<FlowExecution>, i: nat, used: set<string>)
    requires i < |desired| && used == Used(live, desired, i)
    ensures var found := Match(live, desired[i], used);
            && (QuietUpTo(live, desired, i + 1)
                <==> QuietUpTo(live, desired, i) && (found.Some? ==> found.value.priority == i))
            && Used(live, desired, i + 1) == if found.Some? then used + {found.value.id} else used
  {
    hide Match;
    assert QuietUpTo(live, desired, i + 1) ==> QuietAt(live, desired, i);
  }

  /** Only priorities differ. */
  ghost predicate OnlyOrdered(es: Executions, now: Executions) {
    now.Keys == es.Keys && forall id :: id in es ==> now[id] == es[id].(priority := now[id].priority)
  }

  /** And only those of the executions found so far. */
  ghost predicate OrderedSoFar(es: Executions, now: Executions, used: set<string>) {
    OnlyOrdered(es, now) && forall id :: id in es && id !in used ==> now[id] == es[id]
  }

  lemma NothingOrdered(es: Executions)
    ensures OrderedSoFar(es, es, {})
  {
  }

  lemma OneOrdered(es: Executions, now: Executions, live: seq<Execution>, want: FlowExecution, used: set<string>,
                   priority: int)
    requires OrderedSoFar(es, now, used) && Fresh(es, live, {}) && Match(live, want, used).Some?
    ensures var e := Match(live, want, used).value;
            && e.id in now && now[e.id] == e
            && OrderedSoFar(es, now[e.id := e.(priority := priority)], used + {e.id})
  {
    hide Match;
    MatchFinds(live, want, used);
  }

  lemma OrderedIsOnlyOrdered(es: Executions, now: Executions, used: set<string>)
    requires OrderedSoFar(es, now, used)
    ensures OnlyOrdered(es, now)
  {
  }

  /**
   Gives each declared execution the priority of its position, over the listing
   returned as `live`: something is sent exactly when one of the searches over it
   finds an execution of another priority.
   */
  method ReconcileExecutionOrder(api: Keycloak, alias: string, desired: seq<FlowExecution>, ghost claims: seq<string>)
    returns (changed: bool, err: Option<SyncError>, ghost live: seq<Execution>)
    requires api.Valid() && |claims| == |desired|
    modifies api`flows, api`writes
    ensures api.Valid() && Accounted(api)
    ensures SameExcept(old(api.flows), api.flows, {alias})
    ensures err.None? ==> (changed <==> api.writes != old(api.writes))
    ensures alias in old(api.flows) ==> alias in api.flows && api.flows[alias].Keys == old(api.flows)[alias].Keys
    ensures err.None? ==> alias in old(api.flows) && OnlyOrdered(old(api.flows)[alias], api.flows[alias])
    ensures alias in old(api.flows) && InPlace(old(api.flows)[alias], desired, claims) && err.None? ==>
              Renumbered(old(api.flows)[alias], api.flows[alias], claims, |claims|)
    ensures alias in old(api.flows) && InPlace(old(api.flows)[alias], desired, claims)
            && Renumbered(old(api.flows)[alias], old(api.flows)[alias], claims, |claims|) ==>
              api.writes == old(api.writes) && !changed
    ensures err.None? ==>
              && alias in old(api.flows) && Listing(old(api.flows)[alias], live)
              && (api.writes == old(api.writes) <==> OrderIsQuiet(live, desired))
    ensures api.reliable && alias in old(api.flows) ==> err.None?
  {
    hide InPlace, QuietUpTo, OrderIsQuiet, Used, Renumbered, Numbering, OrderedSoFar, OnlyOrdered, Match,
         WellKeyed, Listing, Fresh, AllDifferent;
    changed, live := false, [];
    ghost var flows := api.flows;
    var listed := ListInOrder(api, alias);
    if listed.Failure? {
      return changed, Some(listed.error), live;
    }
    var rows := listed.value;
    live := rows;
    ghost var es := flows[alias];
    ListingStartsFresh(es, live);
    ghost var placed := InPlace(es, desired, claims);
    if placed {
      NumberingStart(es, desired, claims);
    }
    var used: set<string> := {};
    QuietThroughout(live, desired);
    NothingOrdered(es);
    for i := 0 to |desired|
      invariant api.Valid() && Accounted(api)
      invariant SameExcept(flows, api.flows, {alias})
      invariant changed <==> api.writes != old(api.writes)
      invariant alias in api.flows && api.flows[alias].Keys == es.Keys
      invariant used == Used(live, desired, i) && OrderedSoFar(es, api.flows[alias], used)
      invariant api.writes == old(api.writes) <==> QuietUpTo(live, desired, i)
      invariant placed ==> Numbering(es, api.flows[alias], desired, claims, used, i)
      invariant placed && Renumbered(es, es, claims, |claims|) ==> api.writes == old(api.writes)
    {
      var current := MatchingExecution(rows, desired[i], used);
      MatchIsThere(es, live, desired[i], used);
      ghost var now, before := api.flows[alias], used;
      QuietStep(live, desired, i, used);
      if current.Some? {
        OneOrdered(es, now, live, desired[i], used, i);
      }
      if placed {
        NumberingCurrent(es, now, live, desired, claims, used, i);
      }
      if current.Some? {
        used := used + {current.value.id};
        var moved, moveErr := SetPriority(api, alias, current.value, i);
        changed := changed || moved;
        if moveErr.Some? {
          return changed, moveErr, live;
        }
      }
      if placed {
        NumberingNext(es, now, api.flows[alias], desired, claims, before, i);
      }
    }
    if placed {
      NumberingDone(es, api.flows[alias], desired, claims, used);
    }
    OrderedIsOnlyOrdered(es, api.flows[alias], used);
    err := None;
  }

  /** The first i entries have their subflows counted. */
  ghost predicate CountedBelow(flows: Flows, desired: seq<FlowExecution>, i: nat)
    requires i <= |desired|
  {
    forall k :: 0 <= k < i && desired[k].flow.Some? ==>
      Counted(flows, desired[k].flow.value.alias, desired[k].flow.value.executions)
  }

  /** What the loop knows of the claims so far, when no alias occurs twice. */
  ghost predicate Tracked(flows: Flows, alias: string, desired: seq<FlowExecution>, es0: Executions,
                          picks: seq<Option<string>>, claims: seq<string>)
  {
    && UniqueAliases(alias, desired) && alias in flows && |claims| <= |desired|
    && Following(es0, flows[alias], picks, claims) && Greedy(es0, desired, picks)
    && CountedBelow(flows, desired, |claims|)
  }

  /** Starting from nothing, what is claimed so far is new, and of the rest nothing exists. */
  ghost predicate Novel(flows: Flows, labels: Option<set<string>>, alias: string, desired: seq<FlowExecution>,
                        es0: Executions, claims: seq<string>)
  {
    && es0 == map[] && alias in flows && |claims| <= |desired|
    && (forall k :: 0 <= k < |claims| ==>
          && claims[k] in flows[alias] && IsNew(labels, desired[k], flows[alias][claims[k]])
          && NewBelow(flows, labels, desired[k]))
    && (forall k :: |claims| <= k < |desired| ==> flows.Keys !! Aliases(desired[k]))
  }

  lemma StartNovel(flows: Flows, labels: Option<set<string>>, alias: string, desired: seq<FlowExecution>)
    requires Bare(flows, alias, desired) && alias in flows
    ensures Novel(flows, labels, alias, desired, flows[alias], [])
  {
    forall k | 0 <= k < |desired|
      ensures flows.Keys !! Aliases(desired[k])
    {
      AliasesInTree(desired, k);
    }
  }

  /** Where there is nothing, the claimed execution was created just now. */
  lemma ClaimIsNew(before: Flows, after: Flows, labels: Option<set<string>>, alias: string,
                   desired: seq<FlowExecution>, es0: Executions, picks: seq<Option<string>>, claims: seq<string>,
                   pick: Option<string>, current: Execution)
    requires UniqueAliases(alias, desired) && |claims| < |desired|
    requires Novel(before, labels, alias, desired, es0, claims)
    requires ClaimedBy(before, after, alias, desired[|claims|], es0, picks, claims, pick, current)
    requires pick.None? ==> Added(before, after, alias, desired[|claims|], current)
    requires pick.None? && desired[|claims|].flow.Some? ==>
               ShownAs(labels, desired[|claims|].flow.value.alias, current.alias)
    ensures JustNew(after, labels, desired[|claims|], current)
  {
    hide IsNew, ShownAs, NewFor, Compatible, Rank, NewBelow;
    UniqueBelow(alias, desired, |claims|);
    var want := desired[|claims|];
    assert pick.None?;
    if want.flow.Some? {
      BelowInAliases(want);
      assert want.flow.value.alias !in TreeAliases(want.flow.value.executions);
    }
  }

  /** Settling what was created keeps what is claimed new. */
  lemma StepIsNovel(before: Flows, after: Flows, labels: Option<set<string>>, alias: string,
                    desired: seq<FlowExecution>, es0: Executions, claims: seq<string>, id: string)
    requires UniqueAliases(alias, desired) && |claims| < |desired|
    requires Novel(before, labels, alias, desired, es0, claims) && id !in claims
    requires alias in after && id in after[alias] && after[alias] == before[alias][id := after[alias][id]]
    requires SameExcept(before, after, {alias} + Aliases(desired[|claims|]))
    requires IsNew(labels, desired[|claims|], after[alias][id]) && NewBelow(after, labels, desired[|claims|])
    ensures Novel(after, labels, alias, desired, es0, claims + [id])
  {
    hide IsNew, AllNew, UniqueAliases, Aliases;
    var i := |claims|;
    forall k | 0 <= k < i
      ensures NewBelow(after, labels, desired[k]) && claims[k] != id
    {
      SiblingsDisjoint(alias, desired, i, k);
      if desired[k].flow.Some? {
        BelowInAliases(desired[k]);
        AllNewFrame(before, after, labels, {alias} + Aliases(desired[i]), desired[k].flow.value.alias,
                    desired[k].flow.value.executions);
      }
    }
    forall k | i < k < |desired|
      ensures after.Keys !! Aliases(desired[k])
    {
      SiblingsDisjoint(alias, desired, i, k);
    }
  }

  /** Once every entry has its new execution, and no others are left, the tree is all new. */
  lemma NovelIsAllNew(before: Flows, after: Flows, labels: Option<set<string>>, alias: string,
                      desired: seq<FlowExecution>, es0: Executions, claims: seq<string>, left: Executions)
    requires UniqueAliases(alias, desired) && |claims| == |desired|
    requires Novel(before, labels, alias, desired, es0, claims)
    requires SameExcept(before, after, {alias}) && alias in after && OnlyOrdered(left, after[alias])
    requires forall k :: 0 <= k < |claims| ==> claims[k] in left && left[claims[k]] == before[alias][claims[k]]
    requires forall id :: id in left ==> id in claims
    ensures AllNew(after, labels, alias, desired)
  {
    hide UniqueAliases;
    forall k | 0 <= k < |desired|
      ensures NewBelow(after, labels, desired[k]) && IsNew(labels, desired[k], after[alias][claims[k]])
    {
      UniqueBelow(alias, desired, k);
      if desired[k].flow.Some? {
        BelowInAliases(desired[k]);
        AllNewFrame(before, after, labels, {alias}, desired[k].flow.value.alias, desired[k].flow.value.executions);
      }
    }
    assert NewBy(after[alias], labels, desired, claims);
  }

  /** The claims so far follow a plan by which the flow is calm. */
  ghost predicate OnPlan(flows: Flows, flowIds: map<string, string>, alias: string, desired: seq<FlowExecution>,
                         plan: seq<string>, claims: seq<string>)
  {
    && alias in flows && |claims| <= |plan| == |desired| && claims == plan[..|claims|]
    && InPlace(flows[alias], desired, plan)
    && forall k :: 0 <= k < |desired| ==>
         && plan[k] in flows[alias] && Carries(flows, flowIds, flows[alias][plan[k]], desired[k])
         && CalmBelow(flows, flowIds, desired[k])
  }

  /** The execution claimed for the next entry: the one picked, or the one just created. */
  ghost predicate ClaimedBy(before: Flows, after: Flows, alias: string, want: FlowExecution, es0: Executions,
                            picks: seq<Option<string>>, claims: seq<string>, pick: Option<string>, current: Execution)
  {
    && Pickable(es0, want, Taken(picks), pick) && Starts(es0, want, pick, current)
    && current.id !in claims && Holds(after, alias, current) && alias in before
    && after[alias] == before[alias][current.id := current]
    && if pick.Some? then pick.value == current.id else current.id !in before[alias]
  }

  lemma FoundIsClaimed(flows: Flows, alias: string, want: FlowExecution, es0: Executions,
                       picks: seq<Option<string>>, claims: seq<string>, live: seq<Execution>, kept: set<string>)
    requires WellKeyed(flows) && alias in flows && Following(es0, flows[alias], picks, claims)
    requires kept == Elements(claims) && Fresh(flows[alias], live, kept) && Match(live, want, kept).Some?
    ensures var found := Match(live, want, kept).value;
            ClaimedBy(flows, flows, alias, want, es0, picks, claims, Some(found.id), found)
  {
    hide Match, Pickable, Rank, Compatible;
    MatchIsPickable(es0, flows[alias], want, picks, claims, live, kept);
    var found := Match(live, want, kept).value;
    assert found.id in es0 && es0[found.id] == found by {
      TakenAreClaimed(es0, flows[alias], picks, claims);
    }
    assert flows[alias] == flows[alias][found.id := found];
  }

  lemma CreatedIsClaimed(before: Flows, after: Flows, alias: string, want: FlowExecution, es0: Executions,
                         picks: seq<Option<string>>, claims: seq<string>, live: seq<Execution>, rows: seq<Execution>,
                         kept: set<string>, added: Execution)
    requires WellKeyed(before) && alias in before && Following(es0, before[alias], picks, claims)
    requires kept == Elements(claims) && Fresh(before[alias], live, kept) && Match(live, want, kept).None?
    requires Added(before, after, alias, want, added) && Listing(after[alias], rows) && alias !in Aliases(want)
    requires want.flow.None? ==> want.authenticator != ""
    ensures Match(rows, want, kept) == Some(added)
    ensures ClaimedBy(before, after, alias, want, es0, picks, claims, None, added)
  {
    hide Match, Pickable, Rank, Compatible;
    MatchIsPickable(es0, before[alias], want, picks, claims, live, kept);
    ListingIsFresh(before, after, alias, want, added, rows, kept);
    NewIsCompatible(added, want);
    CreatedIsFound(before[alias], after[alias], want, added, live, rows, kept);
  }

  /** Whether it was found or created, the claimed execution is the outcome of a search. */
  lemma ClaimIsTracked(before: Flows, after: Flows, alias: string, want: FlowExecution, es0: Executions,
                       picks: seq<Option<string>>, claims: seq<string>, live: seq<Execution>, rows: seq<Execution>,
                       kept: set<string>, created: bool, added: Execution, current: Execution)
    requires WellKeyed(before) && alias in before && Following(es0, before[alias], picks, claims)
    requires kept == Elements(claims) && Fresh(before[alias], live, kept) && kept <= before[alias].Keys
    requires Match(rows, want, kept) == Some(current)
    requires !created ==> rows == live && after == before
    requires created ==>
               && Match(live, want, kept).None? && Added(before, after, alias, want, added)
               && Listing(after[alias], rows) && alias !in Aliases(want)
               && (want.flow.None? ==> want.authenticator != "")
    ensures var pick := if created then None else Some(current.id);
            ClaimedBy(before, after, alias, want, es0, picks, claims, pick, current)
    ensures Fresh(after[alias], rows, kept) && kept <= after[alias].Keys
    ensures created ==> current == added
  {
    hide Listing, Match, WellKeyed, Fresh, ClaimedBy, Aliases, Following;
    if created {
      CreatedIsClaimed(before, after, alias, want, es0, picks, claims, live, rows, kept, added);
      ListingIsFresh(before, after, alias, want, added, rows, kept);
    } else {
      FoundIsClaimed(before, alias, want, es0, picks, claims, live, kept);
    }
  }

  /** Settling what was claimed extends what is tracked. */
  lemma StepIsTracked(before: Flows, between: Flows, after: Flows, alias: string, desired: seq<FlowExecution>,
                      es0: Executions, picks: seq<Option<string>>, claims: seq<string>, pick: Option<string>,
                      current: Execution)
    requires Tracked(before, alias, desired, es0, picks, claims) && |claims| < |desired|
    requires ClaimedBy(before, between, alias, desired[|claims|], es0, picks, claims, pick, current)
    requires Has(after, alias, current)
    requires after[alias] == between[alias][current.id := after[alias][current.id]]
    requires SameExcept(before, after, {alias} + Aliases(desired[|claims|]))
    requires desired[|claims|].flow.Some? ==>
               Counted(after, desired[|claims|].flow.value.alias, desired[|claims|].flow.value.executions)
    ensures Tracked(after, alias, desired, es0, picks + [pick], claims + [current.id])
  {
    hide Pickable, UniqueAliases, Aliases, Greedy, Counted, Following, SameExcept;
    var i := |claims|;
    TrackedLengths(before, alias, desired, es0, picks, claims);
    GreedyExtends(es0, desired, picks, pick);
    FollowingExtends(es0, before[alias], after[alias], picks, claims, pick, current.id);
    StepCounts(before, after, alias, desired, i);
  }

  lemma TrackedLengths(flows: Flows, alias: string, desired: seq<FlowExecution>, es0: Executions,
                       picks: seq<Option<string>>, claims: seq<string>)
    requires Tracked(flows, alias, desired, es0, picks, claims)
    ensures |picks| == |claims| <= |desired| && alias in flows
  {
  }

  lemma StepCounts(before: Flows, after: Flows, alias: string, desired: seq<FlowExecution>, i: nat)
    requires i < |desired| && UniqueAliases(alias, desired) && CountedBelow(before, desired, i)
    requires SameExcept(before, after, {alias} + Aliases(desired[i]))
    requires desired[i].flow.Some? ==>
               Counted(after, desired[i].flow.value.alias, desired[i].flow.value.executions)
    ensures CountedBelow(after, desired, i + 1)
  {
    hide Counted, UniqueAliases;
    forall k | 0 <= k < i && desired[k].flow.Some?
      ensures Counted(after, desired[k].flow.value.alias, desired[k].flow.value.executions)
    {
      SiblingsDisjoint(alias, desired, i, k);
      BelowInAliases(desired[k]);
      CountedFrame(before, after, {alias} + Aliases(desired[i]), desired[k].flow.value.alias,
                   desired[k].flow.value.executions);
    }
  }

  /** Settling the claimed execution leaves the listing of the others fresh. */
  lemma FreshAside(es: Executions, after: Executions, rows: seq<Execution>, kept: set<string>, id: string)
    requires Fresh(es, rows, kept) && kept <= es.Keys && id in es && id in after && after == es[id := after[id]]
    ensures Fresh(after, rows, kept + {id}) && kept + {id} <= after.Keys
  {
  }

  /** On plan, the search finds the planned execution. */
  lemma PlannedIsFound(flows: Flows, flowIds: map<string, string>, alias: string, desired: seq<FlowExecution>,
                       plan: seq<string>, claims: seq<string>, live: seq<Execution>, kept: set<string>)
    requires OnPlan(flows, flowIds, alias, desired, plan, claims) && |claims| < |desired|
    requires kept == Elements(claims) && Fresh(flows[alias], live, kept)
    ensures var e := flows[alias][plan[|claims|]]; var want := desired[|claims|];
            && Match(live, want, kept) == Some(e) && e.id == plan[|claims|] && Holds(flows, alias, e)
            && Carries(flows, flowIds, e, want) && CalmBelow(flows, flowIds, want)
  {
    hide Match, Carries, CalmBelow, InPlace;
    MatchFindsClaim(flows[alias], live, desired, plan, |claims|, kept);
  }

  /** What has to be created for a buildable entry can be. */
  lemma CreationIsPossible(flows: Flows, flowIds: map<string, string>, alias: string, desired: seq<FlowExecution>,
                           es0: Executions, picks: seq<Option<string>>, claims: seq<string>, live: seq<Execution>,
                           kept: set<string>)
    requires WellKeyed(flows) && Tracked(flows, alias, desired, es0, picks, claims) && |claims| < |desired|
    requires kept == Elements(claims) && Fresh(flows[alias], live, kept)
    requires BuildableFrom(flows, flowIds, es0, desired, |claims|)
    ensures var want := desired[|claims|];
            Match(live, want, kept).None? ==>
              if want.flow.Some? then want.flow.value.alias !in flows else want.authenticator != ""
  {
    hide Match, Pickable, UniqueAliases, Greedy, CountedBelow, BuildableFrom, Buildable, Fresh;
    var want := desired[|claims|];
    MatchIsPickable(es0, flows[alias], want, picks, claims, live, kept);
    NextIsBuildable(flows, flowIds, es0, desired, picks, PickOf(Match(live, want, kept)));
  }

  /** A claimed subflow of a buildable entry is linked, and can be built. */
  lemma ClaimIsLinked(before: Flows, after: Flows, idsBefore: map<string, string>, idsAfter: map<string, string>,
                      alias: string, desired: seq<FlowExecution>, es0: Executions, picks: seq<Option<string>>,
                      claims: seq<string>, pick: Option<string>, current: Execution)
    requires Tracked(before, alias, desired, es0, picks, claims) && |claims| < |desired|
    requires BuildableFrom(before, idsBefore, es0, desired, |claims|) && Extends(idsBefore, idsAfter)
    requires ClaimedBy(before, after, alias, desired[|claims|], es0, picks, claims, pick, current)
    requires if pick.Some? then after == before && idsAfter == idsBefore
             else Added(before, after, alias, desired[|claims|], current)
    requires pick.None? && desired[|claims|].flow.Some? ==>
               && current.flowId != "" && current.flowId in idsAfter
               && idsAfter[current.flowId] == desired[|claims|].flow.value.alias
    ensures Linked(after, idsAfter, desired[|claims|], current)
  {
    hide Pickable, Greedy, CountedBelow, BuildableFrom, Buildable, BuildableAt, Linked, Extends, UniqueAliases, Added,
         NewFor, Aliases;
    var want := desired[|claims|];
    UniqueBelow(alias, desired, |claims|);
    NextIsBuildable(before, idsBefore, es0, desired, picks, pick);
    if pick.Some? {
      PickedIsLinked(before, idsBefore, es0, want, current);
    } else {
      CreatedIsLinked(before, after, idsBefore, idsAfter, es0, alias, want, current);
    }
  }

  /** The subflow of the next entry is well posed, newly created or not. */
  lemma NextIsPosed(before: Flows, after: Flows, flowIds: map<string, string>, es0: Executions, alias: string,
                    desired: seq<FlowExecution>, picks: seq<Option<string>>, claims: seq<string>, added: Execution)
    requires Underway(before, flowIds, es0, alias, desired, picks, claims) && |claims| < |desired|
    requires UniqueAliases(alias, desired)
    requires after == before || Added(before, after, alias, desired[|claims|], added)
    ensures PosedBelow(after, desired[|claims|])
  {
    hide InOrder, Posed, UniqueAliases, Greedy, Following, Added, Aliases, PosedBelow;
    var want := desired[|claims|];
    UniqueBelow(alias, desired, |claims|);
    if after != before {
      CreatedIsPosed(before, after, alias, want, added);
    }
  }

  lemma TrackedFollows(flows: Flows, alias: string, desired: seq<FlowExecution>, es0: Executions,
                       picks: seq<Option<string>>, claims: seq<string>)
    requires Tracked(flows, alias, desired, es0, picks, claims)
    ensures alias in flows && Following(es0, flows[alias], picks, claims) && UniqueAliases(alias, desired)
    ensures |picks| == |claims|
  {
  }

  /** Claims the execution for the next entry, creating it when none is left. */
  method ClaimNext(api: Keycloak, alias: string, desired: seq<FlowExecution>, i: nat,
                   live: seq<Execution>, kept: set<string>, ghost es0: Executions,
                   ghost picks: seq<Option<string>>, ghost claims: seq<string>, ghost plan: seq<string>,
                   ghost unique: bool, ghost posed: bool, ghost calm: bool, ghost bare: bool)
    returns (created: bool, rows: seq<Execution>, current: Option<Execution>, err: Option<SyncError>,
             ghost pick: Option<string>)
    requires api.Valid() && i < |desired|
    requires |claims| == i && AllDifferent(claims) && kept == Elements(claims)
    requires unique || calm ==>
               alias in api.flows && Fresh(api.flows[alias], live, kept) && kept <= api.flows[alias].Keys
    requires unique ==> Tracked(api.flows, alias, desired, es0, picks, claims)
    requires posed ==> unique && Underway(api.flows, api.flowIds, es0, alias, desired, picks, claims)
    requires calm ==> OnPlan(api.flows, api.flowIds, alias, desired, plan, claims)
    requires bare ==> unique && Novel(api.flows, api.labels, alias, desired, es0, claims)
    modifies api
    ensures api.Valid() && Accounted(api)
    ensures SameExcept(old(api.flows), api.flows, {alias} + Aliases(desired[i]))
    ensures err.None? ==> (created <==> api.writes != old(api.writes))
    ensures err.None? ==> current.Some? && current.value.id !in kept
    ensures err.None? && (unique || calm) ==>
              && Holds(api.flows, alias, current.value) && Fresh(api.flows[alias], rows, kept)
              && kept <= api.flows[alias].Keys
    ensures err.None? && unique ==>
              ClaimedBy(old(api.flows), api.flows, alias, desired[i], es0, picks, claims, pick, current.value)
    ensures err.None? && posed ==> PosedBelow(api.flows, desired[i])
    ensures err.None? && bare ==> JustNew(api.flows, api.labels, desired[i], current.value)
    ensures calm ==>
              && api.writes == old(api.writes) && !created && err.None? && current.value.id == plan[i]
              && Carries(api.flows, api.flowIds, current.value, desired[i])
              && CalmBelow(api.flows, api.flowIds, desired[i])
    ensures api.reliable && unique && BuildableFrom(old(api.flows), old(api.flowIds), es0, desired, i) ==>
              err.None? && Linked(api.flows, api.flowIds, desired[i], current.value)
  {
    hide Listing, AllDifferent, Underway, Carries, CalmBelow, UniqueAliases, TreeAliases, Aliases, WellKeyed, Match,
         Compatible, Added, InPlace, PosedBelow, BuildableFrom, Tracked, OnPlan, Pickable, Starts, Following, Greedy,
         Linked, Fresh, Novel, JustNew, ShownAs;
    pick := None;
    var want := desired[i];
    ghost var flows0, ids0 := api.flows, api.flowIds;
    ghost var buildable := unique && BuildableFrom(flows0, ids0, es0, desired, i);
    if buildable {
      CreationIsPossible(flows0, ids0, alias, desired, es0, picks, claims, live, kept);
    }
    if calm {
      PlannedIsFound(flows0, ids0, alias, desired, plan, claims, live, kept);
    }
    ghost var added: Execution;
    current, rows, created, err, added := ClaimExecution(api, alias, want, live, kept);
    if err.Some? {
      return;
    }
    MatchFinds(rows, want, kept);
    if unique {
      pick := if created then None else Some(current.value.id);
      TrackedFollows(flows0, alias, desired, es0, picks, claims);
      UniqueBelow(alias, desired, i);
      ClaimIsTracked(flows0, api.flows, alias, want, es0, picks, claims, live, rows, kept, created, added,
                     current.value);
      if buildable {
        ClaimIsLinked(flows0, api.flows, ids0, api.flowIds, alias, desired, es0, picks, claims, pick, current.value);
      }
    }
    if bare {
      ClaimIsNew(flows0, api.flows, api.labels, alias, desired, es0, picks, claims, pick, current.value);
    }
    if posed {
      NextIsPosed(flows0, api.flows, ids0, es0, alias, desired, picks, claims, added);
    }
  }

  /** Claims and settles the execution for the next entry. */
  method ReconcileExecution(api: Keycloak, alias: string, desired: seq<FlowExecution>, i: nat,
                            live: seq<Execution>, kept: set<string>, ghost es0: Executions,
                            ghost picks: seq<Option<string>>, ghost claims: seq<string>, ghost plan: seq<string>,
                            ghost unique: bool, ghost posed: bool, ghost calm: bool, ghost bare: bool)
    returns (created: bool, updated: bool, rows: seq<Execution>, id: string, err: Option<SyncError>,
             ghost pick: Option<string>)
    requires api.Valid() && i < |desired|
    requires |claims| == i && AllDifferent(claims) && kept == Elements(claims)
    requires unique || calm ==>
               alias in api.flows && Fresh(api.flows[alias], live, kept) && kept <= api.flows[alias].Keys
    requires unique ==> Tracked(api.flows, alias, desired, es0, picks, claims)
    requires posed ==> unique && Underway(api.flows, api.flowIds, es0, alias, desired, picks, claims)
    requires calm ==> OnPlan(api.flows, api.flowIds, alias, desired, plan, claims)
    requires bare ==> unique && Novel(api.flows, api.labels, alias, desired, es0, claims)
    modifies api
    decreases desired, 0
    ensures api.Valid() && Accounted(api)
    ensures SameExcept(old(api.flows), api.flows, {alias} + Aliases(desired[i]))
    ensures err.None? ==> (created || updated <==> api.writes != old(api.writes))
    ensures err.None? ==> id !in kept
    ensures err.None? && (unique || calm) ==>
              && alias in api.flows && Fresh(api.flows[alias], rows, kept + {id})
              && kept + {id} <= api.flows[alias].Keys
    ensures err.None? && unique ==> Tracked(api.flows, alias, desired, es0, picks + [pick], claims + [id])
    ensures err.None? && posed ==>
              Underway(api.flows, api.flowIds, es0, alias, desired, picks + [pick], claims + [id])
    ensures err.None? && bare ==> Novel(api.flows, api.labels, alias, desired, es0, claims + [id])
    ensures calm ==> api.writes == old(api.writes) && !created && !updated && (err.None? ==> id == plan[i])
    ensures api.reliable && unique && BuildableFrom(old(api.flows), old(api.flowIds), es0, desired, i) ==>
              err.None? && BuildableFrom(api.flows, api.flowIds, es0, desired, i + 1)
  {
    hide Listing, AllDifferent, Underway, Counted, Carries, Calm, CalmBelow, UniqueAliases, TreeAliases,
         Aliases, WellKeyed, Match, Compatible, Kin, InPlace, PosedBelow, BuildableFrom, Tracked, OnPlan,
         Pickable, Starts, Following, Greedy, Linked, Fresh, Taken, Novel, JustNew, IsNew, NewBelow;
    updated, id := false, "";
    var want := desired[i];
    ghost var flows0, ids0 := api.flows, api.flowIds;
    ghost var buildable := unique && BuildableFrom(flows0, ids0, es0, desired, i);
    var current: Option<Execution>;
    created, rows, current, err, pick :=
      ClaimNext(api, alias, desired, i, live, kept, es0, picks, claims, plan, unique, posed, calm, bare);
    if err.Some? {
      return;
    }
    id := current.value.id;
    ghost var flows1 := api.flows;
    if unique {
      TrackedFollows(flows0, alias, desired, es0, picks, claims);
      UniqueBelow(alias, desired, i);
    }
    var stepCreated, stepUpdated, stepErr := SettleExecution(api, alias, want, current.value);
    created, updated, err := created || stepCreated, updated || stepUpdated, stepErr;
    if err.Some? {
      return;
    }
    if unique || calm {
      FreshAside(flows1[alias], api.flows[alias], rows, kept, id);
    }
    if unique {
      StepIsTracked(flows0, flows1, api.flows, alias, desired, es0, picks, claims, pick, current.value);
    }
    if bare {
      StepIsNovel(flows0, api.flows, api.labels, alias, desired, es0, claims, id);
    }
    if posed {
      StepExtendsUnderway(flows0, api.flows, ids0, api.flowIds, es0, alias, desired, picks, claims, pick,
                          current.value);
    }
    if buildable {
      StepKeepsBuildable(flows0, api.flows, ids0, api.flowIds, es0, alias, desired, i);
    }
  }

  /** Deletes what is not claimed, then numbers what is. */
  method TrimAndOrder(api: Keycloak, alias: string, desired: seq<FlowExecution>, kept: set<string>,
                      ghost es0: Executions, ghost picks: seq<Option<string>>, ghost claims: seq<string>,
                      ghost unique: bool, ghost posed: bool, ghost bare: bool)
    returns (updated: bool, err: Option<SyncError>)
    requires api.Valid()
    requires |claims| == |desired| && AllDifferent(claims) && kept == Elements(claims)
    requires unique ==> Tracked(api.flows, alias, desired, es0, picks, claims) && kept <= api.flows[alias].Keys
    requires posed ==> unique && Underway(api.flows, api.flowIds, es0, alias, desired, picks, claims)
    requires posed ==> |picks| == |desired| && Tellable(es0, desired, picks)
    requires bare ==> unique && Novel(api.flows, api.labels, alias, desired, es0, claims)
    modifies api`flows, api`writes
    ensures api.Valid() && Accounted(api)
    ensures SameExcept(old(api.flows), api.flows, {alias})
    ensures err.None? ==> (updated <==> api.writes != old(api.writes))
    ensures err.None? && unique ==> Counted(api.flows, alias, desired)
    ensures err.None? && posed ==> Calm(api.flows, api.flowIds, alias, desired)
    ensures err.None? && bare ==> AllNew(api.flows, api.labels, alias, desired)
    ensures alias in old(api.flows) && InPlace(old(api.flows)[alias], desired, claims)
            && Renumbered(old(api.flows)[alias], old(api.flows)[alias], claims, |claims|) ==>
              api.writes == old(api.writes) && !updated
    ensures api.reliable && alias in old(api.flows) ==> err.None?
  {
    hide Underway, Counted, Carries, Calm, UniqueAliases, TreeAliases, Aliases, Claims, Following, Greedy, Tellable,
         Compatible, Rank, OrderIsQuiet, Listing, Novel, OnlyOrdered, AllNew, Renumbered, Paired;
    ghost var flows0 := api.flows;
    var deleted, deleteErr := DeleteUnclaimed(api, alias, kept);
    updated := deleted;
    if deleteErr.Some? {
      return updated, deleteErr;
    }
    ghost var left := api.flows[alias];
    if posed {
      AllInPlace(flows0, api.flowIds, es0, alias, desired, picks, claims, left);
    }
    var changed, orderErr, rows := ReconcileExecutionOrder(api, alias, desired, claims);
    updated := updated || changed;
    if orderErr.Some? {
      return updated, orderErr;
    }
    if posed {
      OrderedIsCalm(flows0, api.flows, api.flowIds, es0, alias, desired, picks, claims, left);
    }
    if bare {
      NovelIsAllNew(flows0, api.flows, api.labels, alias, desired, es0, claims, left);
    }
    if unique {
      CountsDone(flows0, api.flows, alias, desired, claims);
    }
    err := None;
  }

  /** Claims and settles an execution for each entry, in order. */
  method ReconcileEach(api: Keycloak, alias: string, desired: seq<FlowExecution>, live0: seq<Execution>,
                       ghost es0: Executions, ghost plan: seq<string>,
                       ghost unique: bool, ghost posed: bool, ghost calm: bool, ghost bare: bool)
    returns (created: bool, updated: bool, kept: set<string>, err: Option<SyncError>,
             ghost picks: seq<Option<string>>, ghost claims: seq<string>)
    requires api.Valid() && (unique ==> UniqueAliases(alias, desired))
    requires alias in api.flows && es0 == api.flows[alias] && Fresh(es0, live0, {})
    requires posed ==> unique && Underway(api.flows, api.flowIds, es0, alias, desired, [], [])
    requires calm ==> OnPlan(api.flows, api.flowIds, alias, desired, plan, [])
    requires bare ==> unique && Novel(api.flows, api.labels, alias, desired, es0, [])
    modifies api
    decreases desired, 1
    ensures api.Valid() && Accounted(api)
    ensures SameExcept(old(api.flows), api.flows, {alias} + TreeAliases(desired))
    ensures err.None? ==> (created || updated <==> api.writes != old(api.writes))
    ensures err.None? ==> |claims| == |desired| && AllDifferent(claims) && kept == Elements(claims)
    ensures err.None? && unique ==>
              Tracked(api.flows, alias, desired, es0, picks, claims) && kept <= api.flows[alias].Keys
    ensures err.None? && posed ==> Underway(api.flows, api.flowIds, es0, alias, desired, picks, claims)
    ensures err.None? && bare ==> Novel(api.flows, api.labels, alias, desired, es0, claims)
    ensures calm ==> api.writes == old(api.writes) && !created && !updated && (err.None? ==> claims == plan)
    ensures api.reliable && unique && BuildableFrom(old(api.flows), old(api.flowIds), es0, desired, 0) ==> err.None?
  {
    hide BuildableFrom, AllDifferent, Elements, Fresh, Underway, UniqueAliases, TreeAliases, Aliases, WellKeyed,
         Match, Compatible, InPlace, Tracked, OnPlan, Following, Greedy, Carries, Calm, Novel;
    created, updated, picks, claims, kept := false, false, [], [], {};
    var live := live0;
    NoElements();
    ghost var flows, flowIds := api.flows, api.flowIds;
    if unique {
      StartTracked(flows, alias, desired);
    }
    for i := 0 to |desired|
      invariant api.Valid() && Accounted(api)
      invariant SameExcept(flows, api.flows, {alias} + TreeAliases(desired))
      invariant created || updated <==> api.writes != old(api.writes)
      invariant |claims| == i && AllDifferent(claims) && kept == Elements(claims)
      invariant unique || calm ==>
                  alias in api.flows && Fresh(api.flows[alias], live, kept) && kept <= api.flows[alias].Keys
      invariant unique ==> Tracked(api.flows, alias, desired, es0, picks, claims)
      invariant posed ==> Underway(api.flows, api.flowIds, es0, alias, desired, picks, claims)
      invariant bare ==> Novel(api.flows, api.labels, alias, desired, es0, claims)
      invariant calm ==> api.writes == old(api.writes) && OnPlan(api.flows, api.flowIds, alias, desired, plan, claims)
      invariant api.reliable && unique && BuildableFrom(flows, flowIds, es0, desired, 0) ==>
                  BuildableFrom(api.flows, api.flowIds, es0, desired, i)
    {
      AliasesInTree(desired, i);
      var stepCreated, stepUpdated, rows, id, stepErr, pick :=
        ReconcileExecution(api, alias, desired, i, live, kept, es0, picks, claims, plan, unique, posed, calm, bare);
      created, updated := created || stepCreated, updated || stepUpdated;
      if stepErr.Some? {
        return created, updated, kept, stepErr, picks, claims;
      }
      Append(claims, id);
      if calm {
        PlanGoesOn(flows, flowIds, alias, desired, plan, claims);
      }
      live, kept, picks, claims := rows, kept + {id}, picks + [pick], claims + [id];
    }
    if calm {
      PlanIsDone(flows, flowIds, alias, desired, plan, claims);
    }
    err := None;
  }

  lemma StartTracked(flows: Flows, alias: string, desired: seq<FlowExecution>)
    requires UniqueAliases(alias, desired) && alias in flows
    ensures Tracked(flows, alias, desired, flows[alias], [], [])
  {
  }

  lemma PlanGoesOn(flows: Flows, flowIds: map<string, string>, alias: string, desired: seq<FlowExecution>,
                   plan: seq<string>, claims: seq<string>)
    requires OnPlan(flows, flowIds, alias, desired, plan, claims) && |claims| < |desired|
    ensures |plan| == |desired| && OnPlan(flows, flowIds, alias, desired, plan, claims + [plan[|claims|]])
  {
    hide InPlace, Carries, CalmBelow;
    assert plan[..|claims| + 1] == plan[..|claims|] + [plan[|claims|]];
  }

  lemma PlanIsDone(flows: Flows, flowIds: map<string, string>, alias: string, desired: seq<FlowExecution>,
                   plan: seq<string>, claims: seq<string>)
    requires OnPlan(flows, flowIds, alias, desired, plan, claims) && |claims| == |desired|
    ensures claims == plan
  {
  }

  /** Whatever the searches picked, the siblings can be told apart. */
  lemma PickedAreTellable(flows0: Flows, flows: Flows, flowIds: map<string, string>, alias: string,
                          desired: seq<FlowExecution>, picks: seq<Option<string>>, claims: seq<string>)
    requires Posed(flows0, alias, desired) && alias in flows0 && |claims| == |desired|
    requires Underway(flows, flowIds, flows0[alias], alias, desired, picks, claims)
    ensures |picks| == |desired| && Tellable(flows0[alias], desired, picks)
  {
    hide InOrder, Greedy, Tellable, PosedBelow;
  }

  /**
   One pass over the flow named `alias`. Whatever happens, flows outside the tree
   stay as they are and the flags tell exactly whether a request to change
   something was sent. With unique aliases an error-free pass leaves as many
   executions in every flow as declared; on a well-posed input it leaves the tree
   calm, that is converged with its siblings told apart, and on a calm one it sends
   nothing at all. Where there was no tree yet, what it leaves is new throughout. When no
   request fails, nothing keeps it from completing what can be built.
   */
  method ReconcileFlowExecutions(api: Keycloak, alias: string, desired: seq<FlowExecution>)
    returns (created: bool, updated: bool, err: Option<SyncError>)
    requires api.Valid()
    modifies api
    decreases desired, 2
    ensures api.Valid() && Accounted(api)
    ensures SameExcept(old(api.flows), api.flows, {alias} + TreeAliases(desired))
    ensures err.None? ==> (created || updated <==> api.writes != old(api.writes))
    ensures UniqueAliases(alias, desired) && err.None? ==> Counted(api.flows, alias, desired)
    ensures WellPosed(old(api.flows), alias, desired) && err.None? ==>
              Calm(api.flows, api.flowIds, alias, desired)
    ensures Calm(old(api.flows), old(api.flowIds), alias, desired) ==>
              api.writes == old(api.writes) && !created && !updated
    ensures UniqueAliases(alias, desired) && Bare(old(api.flows), alias, desired) && err.None? ==>
              AllNew(api.flows, api.labels, alias, desired)
    ensures api.reliable && UniqueAliases(alias, desired) && alias in old(api.flows)
            && Buildable(old(api.flows), old(api.flowIds), alias, desired) ==>
              err.None?
  {
    hide Buildable, BuildableFrom, AllDifferent, Fresh, Listing, Underway, Posed, Calm, CalmBy, UniqueAliases,
         TreeAliases, Aliases, WellKeyed, Renumbered, InPlace, Tracked, OnPlan, Tellable, Greedy, Following, Bare,
         Novel, AllNew, Counted;
    created, updated := false, false;
    ghost var flows, flowIds := api.flows, api.flowIds;
    ghost var unique := UniqueAliases(alias, desired);
    ghost var posed := WellPosed(flows, alias, desired);
    ghost var calm := Calm(flows, flowIds, alias, desired);
    ghost var plan: seq<string> := [];
    if calm {
      plan := Plan(flows, flowIds, alias, desired);
      StartPlan(flows, flowIds, alias, desired, plan);
    }
    var listed := api.ListDirectExecutions(alias);
    if listed.Failure? {
      return created, updated, Some(listed.error);
    }
    ghost var es0 := flows[alias];
    ghost var bare := unique && Bare(flows, alias, desired);
    PassStarts(flows, flowIds, api.labels, alias, desired);
    var live := Executed(listed.value);
    ListingStartsFresh(es0, live);
    var kept: set<string>;
    ghost var picks: seq<Option<string>>;
    ghost var claims: seq<string>;
    created, updated, kept, err, picks, claims :=
      ReconcileEach(api, alias, desired, live, es0, plan, unique, posed, calm, bare);
    if err.Some? {
      return;
    }
    if posed {
      PickedAreTellable(flows, api.flows, api.flowIds, alias, desired, picks, claims);
    }
    if unique {
      TrackedFollows(api.flows, alias, desired, es0, picks, claims);
    }
    var trimmed, trimErr := TrimAndOrder(api, alias, desired, kept, es0, picks, claims, unique, posed, bare);
    updated := updated || trimmed;
    err := trimErr;
  }

  lemma PassStarts(flows: Flows, flowIds: map<string, string>, labels: Option<set<string>>, alias: string,
                   desired: seq<FlowExecution>)
    requires alias in flows
    ensures Posed(flows, alias, desired) ==> Underway(flows, flowIds, flows[alias], alias, desired, [], [])
    ensures Bare(flows, alias, desired) ==> Novel(flows, labels, alias, desired, flows[alias], [])
    ensures Buildable(flows, flowIds, alias, desired) ==> BuildableFrom(flows, flowIds, flows[alias], desired, 0)
  {
    hide Posed, Underway, Bare, Novel, Buildable, BuildableFrom;
    if Posed(flows, alias, desired) {
      StartUnderway(flows, flowIds, alias, desired);
    }
    if Bare(flows, alias, desired) {
      StartNovel(flows, labels, alias, desired);
    }
    if Buildable(flows, flowIds, alias, desired) {
      AllIsBuildable(flows, flowIds, alias, desired);
    }
  }

  lemma StartPlan(flows: Flows, flowIds: map<string, string>, alias: string, desired: seq<FlowExecution>,
                  plan: seq<string>)
    requires WellKeyed(flows) && CalmBy(flows, flowIds, alias, desired, plan)
    ensures OnPlan(flows, flowIds, alias, desired, plan, [])
    ensures |plan| == |desired| && alias in flows && InPlace(flows[alias], desired, plan)
    ensures Renumbered(flows[alias], flows[alias], plan, |plan|)
  {
    hide Carries, CalmBelow;
    PlanInPlace(flows, flowIds, alias, desired, plan);
  }
}
