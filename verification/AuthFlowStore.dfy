/**
 Keycloak as the flow reconciliation sees it. Every request may fail, before or
 after it took effect; the choices Keycloak makes by itself (identifiers, list
 order, reported indexes, default requirement and priority) are arbitrary.
 */
module AuthFlowStore {
  import opened Wrappers
  import opened AuthFlowModel

  function Executed(rows: seq<Listed>): (es: seq<Execution>)
    ensures |es| == |rows| && forall i :: 0 <= i < |rows| ==> es[i] == rows[i].execution
  {
    seq(|rows|, i requires 0 <= i < |rows| => rows[i].execution)
  }

  /** `rows` lists the executions of one flow, each once. */
  ghost predicate Listing(es: Executions, rows: seq<Execution>) {
    && (forall e :: e in rows ==> e.id in es && es[e.id] == e)
    && (forall id :: id in es ==> es[id] in rows)
    && (forall i, j :: 0 <= i < j < |rows| ==> rows[i].id != rows[j].id)
  }

  ghost predicate WellKeyed(flows: Flows) {
    && (forall a, id :: a in flows && id in flows[a] ==> flows[a][id].id == id)
    && (forall a, b, id :: a in flows && b in flows && id in flows[a] && id in flows[b] ==> a == b)
  }

  ghost predicate Unused(flows: Flows, id: string) {
    forall a :: a in flows ==> id !in flows[a]
  }

  /** `after` is `before` with the new execution `e` for `want` in flow `alias`. */
  ghost predicate Added(before: Flows, after: Flows, alias: string, want: FlowExecution, e: Execution) {
    && alias in before && Unused(before, e.id) && NewFor(e, want)
    && (if want.flow.Some?
        then
          && want.flow.value.alias !in before
          && after == before[want.flow.value.alias := map[]][alias := before[alias][e.id := e]]
        else after == before[alias := before[alias][e.id := e]])
  }

  /** `after` differs from `before` in execution `id` of flow `alias` only. */
  ghost predicate Replaced(before: Flows, after: Flows, alias: string, id: string, e: Execution) {
    alias in before && id in before[alias] && e.id == id && after == before[alias := before[alias][id := e]]
  }

  lemma UsedIds(flows: Flows, id: string)
    requires id !in set a, i | a in flows && i in flows[a] :: i
    ensures Unused(flows, id)
  {
  }

  lemma AddKeepsKeyed(before: Flows, after: Flows, alias: string, want: FlowExecution, e: Execution)
    requires WellKeyed(before) && Added(before, after, alias, want, e)
    ensures WellKeyed(after)
  {
  }

  /** A string longer than all of them. */
  method FreshString(used: set<string>) returns (unused: string)
    ensures unused != "" && unused !in used
  {
    var longest: nat := 0;
    var todo := used;
    while todo != {}
      invariant todo <= used && forall s :: s in used && s !in todo ==> |s| <= longest
      decreases todo
    {
      var s :| s in todo;
      todo := todo - {s};
      if |s| > longest {
        longest := |s|;
      }
    }
    unused := seq(longest + 1, _ => 'x');
  }

  class Keycloak {
    var flows: Flows
    /** The alias of each flow, by flow ID. */
    var flowIds: map<string, string>
    /** The realm representation, absent when the realm does not exist. */
    var realm: Option<map<string, string>>
    /** Number of requests sent that ask Keycloak to change something. */
    var writes: nat
    /** No request fails that asks for something possible. */
    const reliable: bool
    /**
     The aliases of configs and subflows that are reported as the alias of their
     execution; when not told, any at any time.
     */
    const labels: Option<set<string>>

    ghost predicate Valid() reads this { WellKeyed(flows) }

    /** A Keycloak without flows. */
    constructor (realm: Option<map<string, string>>, reliable: bool, labels: Option<set<string>>)
      ensures Valid() && flows == map[] && flowIds == map[] && writes == 0
      ensures this.realm == realm && this.reliable == reliable && this.labels == labels
    {
      this.realm, this.reliable, this.labels := realm, reliable, labels;
      flows, flowIds, writes := map[], map[], 0;
    }

    /** Any identifier not in use. */
    method NewId(used: set<string>) returns (id: string)
      ensures id != "" && id !in used
    {
      id := *;
      if id == "" || id in used {
        id := FreshString(used);
      }
    }

    method ListDirectExecutions(alias: string) returns (r: Result<seq<Listed>, SyncError>)
      requires Valid()
      ensures r.Success? ==> alias in flows && Listing(flows[alias], Executed(r.value))
      ensures r.Failure? ==> r.error == RequestFailed && !(reliable && alias in flows)
    {
      var works := Attempt(reliable);
      if !works || alias !in flows {
        return Failure(RequestFailed);
      }
      var rows: seq<Listed> := [];
      var es := flows[alias];
      var todo := es.Keys;
      while todo != {}
        invariant todo <= es.Keys
        invariant forall e :: e in Executed(rows) ==> e.id in es.Keys - todo && es[e.id] == e
        invariant forall id :: id in es.Keys - todo ==> es[id] in Executed(rows)
        invariant forall i, j :: 0 <= i < j < |rows| ==> Executed(rows)[i].id != Executed(rows)[j].id
        decreases todo
      {
        var id :| id in todo;
        var index: int := *;
        ghost var before := Executed(rows);
        rows := rows + [Listed(es[id], index)];
        assert Executed(rows) == before + [es[id]];
        todo := todo - {id};
      }
      return Success(rows);
    }

    method CreateSubflow(alias: string, f: FlowSpec, ghost want: FlowExecution) returns (ok: bool, ghost e: Execution)
      requires Valid() && want.flow == Some(f)
      modifies this`flows, this`flowIds, this`writes
      ensures Valid() && writes == old(writes) + 1
      ensures Extends(old(flowIds), flowIds)
      ensures ok ==>
                && Added(old(flows), flows, alias, want, e)
                && e.flowId != "" && e.flowId in flowIds && flowIds[e.flowId] == f.alias
                && ShownAs(labels, f.alias, e.alias)
      ensures reliable && alias in old(flows) && f.alias !in old(flows) ==> ok
      ensures !ok ==> flows == old(flows) || Added(old(flows), flows, alias, want, e)
    {
      hide WellKeyed, Unused;
      writes := writes + 1;
      var id := NewId(set a, i | a in flows && i in flows[a] :: i);
      var flowId := NewId(flowIds.Keys);
      var provider: string := *;
      var shown: string := *;
      if labels.Some? {
        shown := if f.alias in labels.value then f.alias else "";
      } else if shown != "" {
        shown := f.alias;
      }
      var requirement: string := *;
      var priority: int := *;
      var x := Execution(id, true, provider, f.alias, shown, requirement, priority, flowId, None);
      e := x;
      var works := Attempt(reliable);
      if !works || alias !in flows || f.alias in flows {
        return false, e;
      }
      UsedIds(flows, id);
      AddKeepsKeyed(flows, flows[f.alias := map[]][alias := flows[alias][id := x]], alias, want, x);
      flows := flows[f.alias := map[]][alias := flows[alias][id := x]];
      flowIds := flowIds[flowId := f.alias];
      ok := Attempt(reliable);
    }

    method CreateExecution(alias: string, provider: string, ghost want: FlowExecution)
      returns (ok: bool, ghost e: Execution)
      requires Valid() && want.flow.None? && want.authenticator == provider
      modifies this`flows, this`writes
      ensures Valid() && writes == old(writes) + 1
      ensures ok ==> Added(old(flows), flows, alias, want, e)
      ensures !ok ==> flows == old(flows) || Added(old(flows), flows, alias, want, e)
      ensures reliable && alias in old(flows) ==> ok
    {
      hide WellKeyed, Unused;
      writes := writes + 1;
      var id := NewId(set a, i | a in flows && i in flows[a] :: i);
      var name: string := *;
      var requirement: string := *;
      var priority: int := *;
      var x := Execution(id, false, provider, name, "", requirement, priority, "", None);
      e := x;
      var works := Attempt(reliable);
      if !works || alias !in flows {
        return false, e;
      }
      UsedIds(flows, id);
      AddKeepsKeyed(flows, flows[alias := flows[alias][id := x]], alias, want, x);
      flows := flows[alias := flows[alias][id := x]];
      ok := Attempt(reliable);
    }

    /** Changing the requirement may reset the priority. */
    method UpdateExecutionRequirement(alias: string, id: string, requirement: string)
      returns (ok: bool, ghost e: Execution)
      requires Valid()
      modifies this`flows, this`writes
      ensures Valid() && writes == old(writes) + 1
      ensures ok ==> Replaced(old(flows), flows, alias, id, e)
                     && e == old(flows)[alias][id].(requirement := requirement, priority := e.priority)
      ensures reliable && alias in old(flows) && id in old(flows)[alias] ==> ok
      ensures !ok ==> flows == old(flows) || Replaced(old(flows), flows, alias, id, e)
    {
      writes := writes + 1;
      var works := Attempt(reliable);
      if !works || alias !in flows || id !in flows[alias] {
        var any: Execution := *;
        return false, any;
      }
      var priority: int := *;
      var x := flows[alias][id].(requirement := requirement, priority := priority);
      e := x;
      flows := flows[alias := flows[alias][id := x]];
      ok := Attempt(reliable);
    }

    /** Stores the requirement and priority of the representation sent. */
    method UpdateExecution(alias: string, update: Execution) returns (ok: bool, ghost e: Execution)
      requires Valid()
      modifies this`flows, this`writes
      ensures Valid() && writes == old(writes) + 1
      ensures ok ==>
                && Replaced(old(flows), flows, alias, update.id, e)
                && e == old(flows)[alias][update.id].(requirement := update.requirement, priority := update.priority)
      ensures reliable && alias in old(flows) && update.id in old(flows)[alias] ==> ok
      ensures !ok ==> flows == old(flows) || Replaced(old(flows), flows, alias, update.id, e)
    {
      writes := writes + 1;
      var works := Attempt(reliable);
      if !works || alias !in flows || update.id !in flows[alias] {
        var any: Execution := *;
        return false, any;
      }
      var x := flows[alias][update.id].(requirement := update.requirement, priority := update.priority);
      e := x;
      flows := flows[alias := flows[alias][update.id := x]];
      ok := Attempt(reliable);
    }

    method GetAuthFlowById(flowId: string) returns (r: Result<string, SyncError>)
      ensures r.Success? ==> flowId in flowIds && r.value == flowIds[flowId]
      ensures reliable && flowId in flowIds ==> r.Success?
    {
      var works := Attempt(reliable);
      if !works || flowId !in flowIds {
        return Failure(RequestFailed);
      }
      return Success(flowIds[flowId]);
    }

    method GetAuthenticatorConfig(alias: string, id: string) returns (r: Result<AuthConfig, SyncError>)
      ensures r.Success? ==> alias in flows && id in flows[alias] && flows[alias][id].config == Some(r.value)
      ensures reliable && alias in flows && id in flows[alias] && flows[alias][id].config.Some? ==> r.Success?
    {
      var works := Attempt(reliable);
      if !works || alias !in flows || id !in flows[alias] || flows[alias][id].config.None? {
        return Failure(RequestFailed);
      }
      return Success(flows[alias][id].config.value);
    }

    /**
     Creates or replaces the config of an execution. Keycloak may from then on
     report the alias of the config as the alias of the execution.
     */
    method WriteAuthenticatorConfig(alias: string, id: string, config: AuthConfig)
      returns (ok: bool, ghost e: Execution)
      requires Valid()
      modifies this`flows, this`writes
      ensures Valid() && writes == old(writes) + 1
      ensures ok ==> Replaced(old(flows), flows, alias, id, e)
                     && e == old(flows)[alias][id].(config := Some(config), alias := e.alias)
                     && (e.alias == old(flows)[alias][id].alias || e.alias == config.alias)
                     && (old(flows)[alias][id].alias == "" ==> ShownAs(labels, config.alias, e.alias))
      ensures reliable && alias in old(flows) && id in old(flows)[alias] ==> ok
      ensures !ok ==> flows == old(flows) || Replaced(old(flows), flows, alias, id, e)
    {
      writes := writes + 1;
      var works := Attempt(reliable);
      if !works || alias !in flows || id !in flows[alias] {
        var any: Execution := *;
        return false, any;
      }
      var x := flows[alias][id].(config := Some(config));
      var shows: bool := *;
      if if labels.Some? then config.alias in labels.value else shows {
        x := x.(alias := config.alias);
      }
      e := x;
      flows := flows[alias := flows[alias][id := x]];
      ok := Attempt(reliable);
    }

    /** Removes the execution wherever it is; the request names no flow. */
    method DeleteExecution(id: string) returns (ok: bool)
      requires Valid()
      modifies this`flows, this`writes
      ensures Valid() && writes == old(writes) + 1
      ensures flows.Keys == old(flows).Keys && (reliable ==> ok)
      ensures ok ==> forall a :: a in flows ==> flows[a] == old(flows)[a] - {id}
      ensures !ok ==> flows == old(flows) || forall a :: a in flows ==> flows[a] == old(flows)[a] - {id}
    {
      writes := writes + 1;
      var works := Attempt(reliable);
      if !works {
        return false;
      }
      flows := map a | a in flows :: flows[a] - {id};
      ok := Attempt(reliable);
    }

    method GetAuthFlow(alias: string) returns (r: Result<bool, SyncError>)
      ensures r.Success? ==> (r.value <==> alias in flows)
      ensures reliable ==> r.Success?
    {
      var works := Attempt(reliable);
      if !works {
        return Failure(RequestFailed);
      }
      return Success(alias in flows);
    }

    method CreateAuthFlow(alias: string) returns (ok: bool)
      requires Valid()
      modifies this`flows, this`flowIds, this`writes
      ensures Valid() && writes == old(writes) + 1
      ensures Extends(old(flowIds), flowIds)
      ensures ok ==> alias !in old(flows) && flows == old(flows)[alias := map[]]
      ensures reliable && alias !in old(flows) ==> ok
      ensures !ok ==> flows == old(flows) || (alias !in old(flows) && flows == old(flows)[alias := map[]])
    {
      writes := writes + 1;
      var flowId := NewId(flowIds.Keys);
      var works := Attempt(reliable);
      if !works || alias in flows {
        return false;
      }
      flows := flows[alias := map[]];
      flowIds := flowIds[flowId := alias];
      ok := Attempt(reliable);
    }

    method GetRealm() returns (r: Result<Option<map<string, string>>, SyncError>)
      ensures r.Success? ==> r.value == realm
      ensures reliable ==> r.Success?
    {
      var works := Attempt(reliable);
      if !works {
        return Failure(RequestFailed);
      }
      return Success(realm);
    }

    method UpdateRealm(update: map<string, string>) returns (ok: bool)
      modifies this`realm, this`writes
      ensures writes == old(writes) + 1
      ensures ok ==> realm == Some(update)
      ensures reliable ==> ok
      ensures !ok ==> realm == old(realm) || realm == Some(update)
    {
      writes := writes + 1;
      var works := Attempt(reliable);
      if !works {
        return false;
      }
      realm := Some(update);
      ok := Attempt(reliable);
    }
  }
}
