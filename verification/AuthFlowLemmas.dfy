/**
 How one step of the reconciliation moves the live state: facts about values,
 independent of the methods that use them.
 */
module AuthFlowLemmas {
  import opened Wrappers
  import opened Sequences
  import opened AuthFlowModel
  import opened AuthFlowStore

  /** `live` still shows every execution, and the unclaimed ones as they are. */
  ghost predicate Fresh(es: Executions, live: seq<Execution>, kept: set<string>) {
    && (forall e :: e in live && e.id !in kept ==> e.id in es && es[e.id] == e)
    && (forall id :: id in es && id !in kept ==> es[id] in live)
  }

  // ----- following the searches -----

  /** The claims are the picks, or created where there was none; what is not claimed is as it was. */
  ghost predicate Following(es0: Executions, es: Executions, picks: seq<Option<string>>, claims: seq<string>) {
    && |claims| == |picks| && AllDifferent(claims)
    && (forall k :: 0 <= k < |claims| ==>
          && claims[k] in es
          && if picks[k].Some? then claims[k] == picks[k].value && claims[k] in es0 else claims[k] !in es0)
    && (forall id :: id !in claims ==> (id in es <==> id in es0) && (id in es ==> es[id] == es0[id]))
  }

  /** What is claimed of the first executions is what was picked. */
  lemma TakenAreClaimed(es0: Executions, es: Executions, picks: seq<Option<string>>, claims: seq<string>)
    requires Following(es0, es, picks, claims)
    ensures forall id :: id in es0 ==> (id in Taken(picks) <==> id in claims)
    ensures es0.Keys <= es.Keys
  {
    forall id | id in es0 && id in claims
      ensures id in Taken(picks)
    {
      var k :| 0 <= k < |claims| && claims[k] == id;
      assert picks[k].Some? && picks[k].value == id;
    }
    forall id | id in Taken(picks)
      ensures id in claims
    {
      var k :| 0 <= k < |picks| && picks[k].Some? && picks[k].value == id;
      assert claims[k] == id;
    }
  }

  function PickOf(found: Option<Execution>): Option<string> {
    if found.Some? then Some(found.value.id) else None
  }

  /** A search over a fresh listing ends with one of the possible picks. */
  lemma MatchIsPickable(es0: Executions, es: Executions, want: FlowExecution, picks: seq<Option<string>>,
                        claims: seq<string>, live: seq<Execution>, kept: set<string>)
    requires Following(es0, es, picks, claims) && kept == Elements(claims) && Fresh(es, live, kept)
    requires forall id :: id in es ==> es[id].id == id
    ensures var found := Match(live, want, kept);
            && Pickable(es0, want, Taken(picks), PickOf(found))
            && (found.Some? ==> found.value.id in es && found.value.id !in claims && es[found.value.id] == found.value)
  {
    hide Rank, Compatible, Match;
    MatchFinds(live, want, kept);
    TakenAreClaimed(es0, es, picks, claims);
    var found := Match(live, want, kept);
    forall id | id in es0 && id !in Taken(picks)
      ensures es[id] in live && es[id].id == id && id !in kept && es[id] == es0[id]
    {
    }
  }

  lemma GreedyExtends(es: Executions, desired: seq<FlowExecution>, picks: seq<Option<string>>, pick: Option<string>)
    requires Greedy(es, desired, picks) && |picks| < |desired|
    requires Pickable(es, desired[|picks|], Taken(picks), pick)
    ensures Greedy(es, desired, picks + [pick])
  {
    hide Pickable;
    var longer := picks + [pick];
    forall i | 0 <= i < |longer|
      ensures Pickable(es, desired[i], Taken(longer[..i]), longer[i])
    {
      assert longer[..i] == picks[..i];
      assert i == |picks| ==> picks[..i] == picks;
    }
  }

  /** Claiming the next execution, picked or created, and changing it. */
  lemma FollowingExtends(es0: Executions, before: Executions, after: Executions, picks: seq<Option<string>>,
                         claims: seq<string>, pick: Option<string>, id: string)
    requires Following(es0, before, picks, claims)
    requires id in after && after == before[id := after[id]] && id !in claims
    requires if pick.Some? then id == pick.value && id in es0 else id !in before
    ensures Following(es0, after, picks + [pick], claims + [id])
  {
    TakenAreClaimed(es0, before, picks, claims);
    forall other | other !in claims + [id]
      ensures (other in after <==> other in es0) && (other in after ==> after[other] == es0[other])
    {
      assert other !in claims && other != id;
    }
  }

  /** When nothing was left to claim, the search after a creation finds the new execution. */
  lemma CreatedIsFound(es: Executions, after: Executions, want: FlowExecution, e: Execution,
                       live: seq<Execution>, rows: seq<Execution>, kept: set<string>)
    requires Fresh(es, live, kept) && Fresh(after, rows, kept) && after == es[e.id := e] && e.id !in kept
    requires Match(live, want, kept).None? && Compatible(e, want)
    requires forall id :: id in es ==> es[id].id == id
    ensures Match(rows, want, kept) == Some(e)
  {
    hide Compatible, Match;
    MatchFinds(live, want, kept);
    MatchFinds(rows, want, kept);
    assert after[e.id] == e && e in rows;
    forall id | id in es && id !in kept
      ensures !Compatible(es[id], want)
    {
      assert es[id] in live;
    }
    var found := Match(rows, want, kept).value;
    assert after[found.id] == found;
  }

  lemma NewIsCompatible(e: Execution, want: FlowExecution)
    requires NewFor(e, want) && (want.flow.None? ==> want.authenticator != "")
    ensures Compatible(e, want)
  {
  }

  lemma AddedIsFound(before: Flows, after: Flows, alias: string, want: FlowExecution, e: Execution,
                     rows: seq<Execution>, kept: set<string>)
    requires Added(before, after, alias, want, e) && Listing(after[alias], rows) && kept <= before[alias].Keys
    requires want.flow.None? ==> want.authenticator != ""
    ensures Match(rows, want, kept).Some?
  {
    MatchFinds(rows, want, kept);
    NewIsCompatible(e, want);
    assert after[alias][e.id] == e && e.id !in kept;
  }

  // ----- the claimed prefix -----

  /** `Posed` for the subflow of an entry. */
  ghost predicate PosedBelow(flows: Flows, want: FlowExecution) {
    want.flow.Some? ==> Posed(flows, want.flow.value.alias, want.flow.value.executions)
  }

  /** One claimed entry: its execution came from its pick and carries what it declares. */
  ghost predicate InOrder(flows: Flows, flowIds: map<string, string>, es0: Executions,
                          want: FlowExecution, pick: Option<string>, e: Execution)
  {
    Outcome(es0, want, pick, e) && Carries(flows, flowIds, e, want) && CalmBelow(flows, flowIds, want)
  }

  /** The claimed prefix of the declaration is in place; the subflows of the rest are still well posed. */
  ghost predicate Underway(flows: Flows, flowIds: map<string, string>, es0: Executions, alias: string,
                           desired: seq<FlowExecution>, picks: seq<Option<string>>, claims: seq<string>)
  {
    && alias in flows && Following(es0, flows[alias], picks, claims) && Greedy(es0, desired, picks)
    && (forall k :: 0 <= k < |claims| ==>
          InOrder(flows, flowIds, es0, desired[k], picks[k], flows[alias][claims[k]]))
    && (forall k :: |claims| <= k < |desired| ==> PosedBelow(flows, desired[k]))
  }

  lemma SiblingsDisjoint(alias: string, desired: seq<FlowExecution>, i: nat, k: nat)
    requires i < |desired| && k < |desired| && i != k && UniqueAliases(alias, desired)
    ensures {alias} + Aliases(desired[i]) !! Aliases(desired[k])
  {
    AliasesInTree(desired, k);
    assert i < k ==> Aliases(desired[i]) !! Aliases(desired[k]);
    assert k < i ==> Aliases(desired[k]) !! Aliases(desired[i]);
  }

  lemma BelowInAliases(want: FlowExecution)
    requires want.flow.Some?
    ensures {want.flow.value.alias} + TreeAliases(want.flow.value.executions) == Aliases(want)
  {
  }

  lemma InOrderFrame(before: Flows, after: Flows, idsBefore: map<string, string>, idsAfter: map<string, string>,
                     touched: set<string>, es0: Executions, want: FlowExecution, pick: Option<string>, e: Execution)
    requires SameExcept(before, after, touched) && Extends(idsBefore, idsAfter) && touched !! Aliases(want)
    requires InOrder(before, idsBefore, es0, want, pick, e)
    ensures InOrder(after, idsAfter, es0, want, pick, e)
  {
    hide Outcome;
    CarriesFrame(before, after, idsBefore, idsAfter, touched, e, want);
    if want.flow.Some? {
      BelowInAliases(want);
      CalmFrame(before, after, idsBefore, idsAfter, touched, want.flow.value.alias, want.flow.value.executions);
    }
  }

  lemma PosedBelowFrame(before: Flows, after: Flows, touched: set<string>, want: FlowExecution)
    requires SameExcept(before, after, touched) && touched !! Aliases(want) && PosedBelow(before, want)
    ensures PosedBelow(after, want)
  {
    if want.flow.Some? {
      BelowInAliases(want);
      assert want.flow.value.alias !in touched;
      PosedFrame(before, after, touched, want.flow.value.alias, want.flow.value.executions);
    }
  }

  /** Claiming and settling the execution of the next entry extends the prefix by it. */
  lemma StepExtendsUnderway(before: Flows, after: Flows, idsBefore: map<string, string>, idsAfter: map<string, string>,
                            es0: Executions, alias: string, desired: seq<FlowExecution>,
                            picks: seq<Option<string>>, claims: seq<string>, pick: Option<string>, start: Execution)
    requires UniqueAliases(alias, desired) && |claims| < |desired|
    requires Underway(before, idsBefore, es0, alias, desired, picks, claims)
    requires Pickable(es0, desired[|claims|], Taken(picks), pick) && Starts(es0, desired[|claims|], pick, start)
    requires start.id !in claims && if pick.Some? then start.id == pick.value else start.id !in before[alias]
    requires alias in after && start.id in after[alias]
    requires after[alias] == before[alias][start.id := after[alias][start.id]]
    requires Kin(start, after[alias][start.id], desired[|claims|])
    requires SameExcept(before, after, {alias} + Aliases(desired[|claims|])) && Extends(idsBefore, idsAfter)
    requires Carries(after, idsAfter, after[alias][start.id], desired[|claims|])
    requires CalmBelow(after, idsAfter, desired[|claims|])
    ensures Underway(after, idsAfter, es0, alias, desired, picks + [pick], claims + [start.id])
  {
    hide InOrder, PosedBelow, Pickable, Carries, CalmBelow, UniqueAliases, Kin, NewFor, AllDifferent;
    var i := |claims|;
    GreedyExtends(es0, desired, picks, pick);
    FollowingExtends(es0, before[alias], after[alias], picks, claims, pick, start.id);
    forall k | 0 <= k < i
      ensures after[alias][claims[k]] == before[alias][claims[k]]
      ensures InOrder(after, idsAfter, es0, desired[k], picks[k], after[alias][claims[k]])
    {
      SiblingsDisjoint(alias, desired, i, k);
      InOrderFrame(before, after, idsBefore, idsAfter, {alias} + Aliases(desired[i]), es0, desired[k], picks[k],
                   before[alias][claims[k]]);
    }
    NowInOrder(after, idsAfter, es0, desired[i], pick, start, after[alias][start.id]);
    forall k | i < k < |desired|
      ensures PosedBelow(after, desired[k])
    {
      SiblingsDisjoint(alias, desired, i, k);
      PosedBelowFrame(before, after, {alias} + Aliases(desired[i]), desired[k]);
    }
  }

  lemma NowInOrder(flows: Flows, flowIds: map<string, string>, es0: Executions, want: FlowExecution,
                   pick: Option<string>, start: Execution, e: Execution)
    requires Starts(es0, want, pick, start) && Kin(start, e, want)
    requires Carries(flows, flowIds, e, want) && CalmBelow(flows, flowIds, want)
    ensures InOrder(flows, flowIds, es0, want, pick, e)
  {
  }

  /** `after` is `before` without some executions that are not kept. */
  ghost predicate Trimmed(before: Executions, after: Executions, kept: set<string>) {
    && after.Keys <= before.Keys
    && (forall id :: id in before && id in kept ==> id in after)
    && (forall id :: id in after ==> after[id] == before[id])
  }

  lemma NothingTrimmed(es: Executions, kept: set<string>)
    ensures Trimmed(es, es, kept)
  {
  }

  /** The first i listed executions are kept or gone; nothing else happened. */
  ghost predicate TrimmedUpTo(start: Flows, now: Flows, alias: string, rows: seq<Execution>, kept: set<string>, i: nat)
    requires i <= |rows|
  {
    && alias in start && alias in now && Listing(start[alias], rows) && WellKeyed(start)
    && SameExcept(start, now, {alias}) && Trimmed(start[alias], now[alias], kept)
    && (forall j :: 0 <= j < i ==> rows[j].id in kept || rows[j].id !in now[alias])
  }

  lemma TrimStart(flows: Flows, alias: string, rows: seq<Execution>, kept: set<string>)
    requires alias in flows && Listing(flows[alias], rows) && WellKeyed(flows)
    ensures TrimmedUpTo(flows, flows, alias, rows, kept, 0)
  {
  }

  lemma TrimSkip(start: Flows, now: Flows, alias: string, rows: seq<Execution>, kept: set<string>, i: nat)
    requires i < |rows| && TrimmedUpTo(start, now, alias, rows, kept, i) && rows[i].id in kept
    ensures TrimmedUpTo(start, now, alias, rows, kept, i + 1)
  {
  }

  lemma TrimDelete(start: Flows, now: Flows, next: Flows, alias: string, rows: seq<Execution>, kept: set<string>,
                   i: nat)
    requires i < |rows| && TrimmedUpTo(start, now, alias, rows, kept, i) && rows[i].id !in kept
    requires next.Keys == now.Keys && forall a :: a in next ==> next[a] == now[a] - {rows[i].id}
    ensures TrimmedUpTo(start, next, alias, rows, kept, i + 1)
  {
    DeleteTrims(start, now, next, alias, rows[i].id, kept);
  }

  lemma TrimEffect(start: Flows, now: Flows, alias: string, rows: seq<Execution>, kept: set<string>, i: nat)
    requires i <= |rows| && TrimmedUpTo(start, now, alias, rows, kept, i)
    ensures alias in now && SameExcept(start, now, {alias}) && Trimmed(start[alias], now[alias], kept)
    ensures i == |rows| ==> now[alias].Keys <= kept
    ensures alias in start && forall j :: 0 <= j < |rows| ==> rows[j].id in start[alias]
  {
    if i == |rows| {
      forall id | id in now[alias]
        ensures id in kept
      {
        var j :| 0 <= j < |rows| && rows[j] == start[alias][id];
      }
    }
  }

  /** Deleting by ID alone reaches no other flow, as IDs are unique. */
  lemma DeleteTrims(start: Flows, before: Flows, after: Flows, alias: string, id: string, kept: set<string>)
    requires WellKeyed(start) && alias in start && alias in before && id in start[alias] && id !in kept
    requires SameExcept(start, before, {alias}) && Trimmed(start[alias], before[alias], kept)
    requires after.Keys == before.Keys && forall a :: a in after ==> after[a] == before[a] - {id}
    ensures SameExcept(start, after, {alias}) && Trimmed(start[alias], after[alias], kept)
    ensures id !in after[alias] && after[alias].Keys <= before[alias].Keys
  {
    forall a | a in start && a != alias
      ensures after[a] == start[a]
    {
      assert id !in start[a];
    }
  }

  // ----- numbering what is claimed -----

  /** `claims` names every execution of the flow, each standing for its entry better than any later one. */
  ghost predicate InPlace(es: Executions, desired: seq<FlowExecution>, claims: seq<string>) {
    && |claims| == |desired| && Claims(es, desired, claims) && Paired(es, desired, claims)
    && (forall id :: id in es ==> id in claims && es[id].id == id)
  }

  /** In a flow already in place, the search for the i-th sibling finds its execution. */
  lemma MatchFindsClaim(es: Executions, live: seq<Execution>, desired: seq<FlowExecution>,
                        claims: seq<string>, i: nat, kept: set<string>)
    requires i < |desired| && InPlace(es, desired, claims)
    requires kept == Elements(claims[..i])
    requires Fresh(es, live, kept)
    ensures Match(live, desired[i], kept) == Some(es[claims[i]]) && es[claims[i]].id == claims[i]
  {
    hide Compatible, Rank, Match;
    MatchFinds(live, desired[i], kept);
    var e := es[claims[i]];
    assert e.id !in kept && e in live && Compatible(e, desired[i]);
    var m := Match(live, desired[i], kept).value;
    var j :| 0 <= j < |claims| && claims[j] == m.id;
    forall k | 0 <= k < i
      ensures claims[k] in kept
    {
      assert claims[..i][k] == claims[k];
    }
  }

  /** The first i siblings carry the priority of their position; nothing else changed. */
  ghost predicate Renumbered(es: Executions, now: Executions, claims: seq<string>, i: nat)
    requires i <= |claims|
  {
    && now.Keys == es.Keys
    && (forall id :: id in es ==> now[id] == es[id].(priority := now[id].priority))
    && (forall id :: id in es && id !in claims[..i] ==> now[id] == es[id])
    && (forall k :: 0 <= k < i ==> claims[k] in now && now[claims[k]].priority == k)
  }

  lemma RenumberStep(es: Executions, now: Executions, next: Executions, claims: seq<string>, i: nat)
    requires i < |claims| && AllDifferent(claims) && Renumbered(es, now, claims, i)
    requires claims[i] in es && next == now[claims[i] := es[claims[i]].(priority := i)]
    ensures Renumbered(es, next, claims, i + 1)
  {
    assert claims[..i + 1] == claims[..i] + [claims[i]];
  }

  /** The numbering of a flow in place has reached the i-th sibling. */
  ghost predicate Numbering(es: Executions, now: Executions, desired: seq<FlowExecution>, claims: seq<string>,
                            used: set<string>, i: nat)
  {
    InPlace(es, desired, claims) && i <= |claims| && used == Elements(claims[..i]) && Renumbered(es, now, claims, i)
  }

  lemma NumberingStart(es: Executions, desired: seq<FlowExecution>, claims: seq<string>)
    requires InPlace(es, desired, claims)
    ensures Numbering(es, es, desired, claims, {}, 0)
  {
  }

  lemma NumberingCurrent(es: Executions, now: Executions, live: seq<Execution>, desired: seq<FlowExecution>,
                         claims: seq<string>, used: set<string>, i: nat)
    requires i < |claims| == |desired| && Numbering(es, now, desired, claims, used, i) && Fresh(es, live, {})
    ensures claims[i] in es && Match(live, desired[i], used) == Some(es[claims[i]]) && es[claims[i]].id == claims[i]
    ensures claims[i] in now && now[claims[i]] == es[claims[i]]
    ensures Renumbered(es, es, claims, |claims|) ==> es[claims[i]].priority == i
  {
    assert Fresh(es, live, used);
    MatchFindsClaim(es, live, desired, claims, i, used);
  }

  lemma NumberingNext(es: Executions, now: Executions, next: Executions, desired: seq<FlowExecution>,
                      claims: seq<string>, used: set<string>, i: nat)
    requires i < |claims| && Numbering(es, now, desired, claims, used, i)
    requires claims[i] in es && next == now[claims[i] := es[claims[i]].(priority := i)]
    ensures Numbering(es, next, desired, claims, used + {claims[i]}, i + 1)
  {
    hide InPlace, Renumbered;
    PlacedDiffer(es, desired, claims);
    RenumberStep(es, now, next, claims, i);
    OneMoreElement(claims, i);
  }

  lemma PlacedDiffer(es: Executions, desired: seq<FlowExecution>, claims: seq<string>)
    requires InPlace(es, desired, claims)
    ensures AllDifferent(claims)
  {
    hide Paired, Compatible;
  }

  lemma OneMoreElement(s: seq<string>, i: nat)
    requires i < |s|
    ensures Elements(s[..i + 1]) == Elements(s[..i]) + {s[i]}
  {
    assert s[..i + 1] == s[..i] + [s[i]];
  }

  lemma NumberingDone(es: Executions, now: Executions, desired: seq<FlowExecution>, claims: seq<string>,
                      used: set<string>)
    requires Numbering(es, now, desired, claims, used, |claims|)
    ensures Renumbered(es, now, claims, |claims|)
  {
  }

  // ----- entering and leaving a pass -----

  lemma ListingStartsFresh(es: Executions, rows: seq<Execution>)
    requires Listing(es, rows)
    ensures Fresh(es, rows, {})
  {
  }

  lemma ListingIsFresh(before: Flows, after: Flows, alias: string, want: FlowExecution, e: Execution,
                       rows: seq<Execution>, kept: set<string>)
    requires Added(before, after, alias, want, e) && Listing(after[alias], rows) && kept <= before[alias].Keys
    ensures Fresh(after[alias], rows, kept) && kept <= after[alias].Keys
    ensures SameExcept(before, after, {alias} + Aliases(want))
  {
  }

  lemma UniqueBelow(alias: string, desired: seq<FlowExecution>, i: nat)
    requires i < |desired| && UniqueAliases(alias, desired)
    ensures alias !in Aliases(desired[i])
    ensures desired[i].flow.Some? ==> UniqueAliases(desired[i].flow.value.alias, desired[i].flow.value.executions)
  {
    AliasesInTree(desired, i);
  }

  lemma StartUnderway(flows: Flows, flowIds: map<string, string>, alias: string, desired: seq<FlowExecution>)
    requires Posed(flows, alias, desired) && alias in flows
    ensures Underway(flows, flowIds, flows[alias], alias, desired, [], [])
  {
  }

  lemma Plan(flows: Flows, flowIds: map<string, string>, alias: string, desired: seq<FlowExecution>)
    returns (plan: seq<string>)
    requires Calm(flows, flowIds, alias, desired)
    ensures CalmBy(flows, flowIds, alias, desired, plan)
  {
    plan :| CalmBy(flows, flowIds, alias, desired, plan);
  }

  lemma PlanInPlace(flows: Flows, flowIds: map<string, string>, alias: string, desired: seq<FlowExecution>,
                    plan: seq<string>)
    requires WellKeyed(flows) && CalmBy(flows, flowIds, alias, desired, plan)
    ensures InPlace(flows[alias], desired, plan)
    ensures Renumbered(flows[alias], flows[alias], plan, |plan|)
    ensures forall k :: 0 <= k < |desired| ==>
              Carries(flows, flowIds, flows[alias][plan[k]], desired[k]) && CalmBelow(flows, flowIds, desired[k])
  {
  }

  /** All siblings claimed, the rest deleted: only the order is left. */
  lemma AllInPlace(flows: Flows, flowIds: map<string, string>, es0: Executions, alias: string,
                   desired: seq<FlowExecution>, picks: seq<Option<string>>, claims: seq<string>, left: Executions)
    requires Underway(flows, flowIds, es0, alias, desired, picks, claims) && |claims| == |desired|
    requires Tellable(es0, desired, picks)
    requires forall k :: 0 <= k < |claims| ==> claims[k] in left && left[claims[k]] == flows[alias][claims[k]]
    requires forall id :: id in left ==> id in claims && left[id].id == id
    ensures InPlace(left, desired, claims)
  {
    hide Outcome, Carries, CalmBelow, Compatible, Rank, AllDifferent;
    assert forall k :: 0 <= k < |claims| ==>
        InOrder(flows, flowIds, es0, desired[k], picks[k], flows[alias][claims[k]]);
  }

  /** What is claimed, settled and numbered, and nothing else, makes the flow calm. */
  lemma OrderedIsCalm(before: Flows, after: Flows, flowIds: map<string, string>, es0: Executions, alias: string,
                      desired: seq<FlowExecution>, picks: seq<Option<string>>, claims: seq<string>, left: Executions)
    requires UniqueAliases(alias, desired) && SameExcept(before, after, {alias}) && alias in after
    requires Underway(before, flowIds, es0, alias, desired, picks, claims) && |claims| == |desired|
    requires InPlace(left, desired, claims) && Renumbered(left, after[alias], claims, |claims|)
    requires forall k :: 0 <= k < |claims| ==> left[claims[k]] == before[alias][claims[k]]
    ensures Calm(after, flowIds, alias, desired)
  {
    hide Outcome, Carries, CalmBelow, UniqueAliases, AllDifferent;
    forall k | 0 <= k < |desired|
      ensures Carries(after, flowIds, after[alias][claims[k]], desired[k]) && CalmBelow(after, flowIds, desired[k])
    {
      AliasesInTree(desired, k);
      UniqueBelow(alias, desired, k);
      assert InOrder(before, flowIds, es0, desired[k], picks[k], before[alias][claims[k]]);
      InOrderFrame(before, after, flowIds, flowIds, {alias}, es0, desired[k], picks[k], before[alias][claims[k]]);
      PriorityAside(after, flowIds, before[alias][claims[k]], after[alias][claims[k]], desired[k]);
    }
    RankedAlike(left, after[alias], desired, claims);
    assert ConvergedBy(after, flowIds, alias, desired, claims);
    assert CalmBy(after, flowIds, alias, desired, claims);
  }

  lemma PriorityAside(flows: Flows, flowIds: map<string, string>, e: Execution, f: Execution, want: FlowExecution)
    requires f == e.(priority := f.priority) && Carries(flows, flowIds, e, want)
    ensures Carries(flows, flowIds, f, want)
  {
  }

  lemma RankedAlike(es: Executions, now: Executions, desired: seq<FlowExecution>, claims: seq<string>)
    requires now.Keys == es.Keys && forall id :: id in es ==> now[id] == es[id].(priority := now[id].priority)
    requires |claims| == |desired| && Claims(es, desired, claims) && Paired(es, desired, claims)
    ensures Claims(now, desired, claims) && Paired(now, desired, claims)
  {
  }

  lemma CountsDone(before: Flows, flows: Flows, alias: string, desired: seq<FlowExecution>, claims: seq<string>)
    requires UniqueAliases(alias, desired) && AllDifferent(claims) && |claims| == |desired|
    requires SameExcept(before, flows, {alias}) && alias in flows && flows[alias].Keys == Elements(claims)
    requires forall k :: 0 <= k < |desired| && desired[k].flow.Some? ==>
               Counted(before, desired[k].flow.value.alias, desired[k].flow.value.executions)
    ensures Counted(flows, alias, desired)
  {
    DifferentCount(claims);
    assert |flows[alias]| == |flows[alias].Keys|;
    forall k | 0 <= k < |desired| && desired[k].flow.Some?
      ensures Counted(flows, desired[k].flow.value.alias, desired[k].flow.value.executions)
    {
      AliasesInTree(desired, k);
      CountedFrame(before, flows, {alias}, desired[k].flow.value.alias, desired[k].flow.value.executions);
    }
  }

  /** An empty new root changes nothing for the tree below it. */
  lemma EmptyFlowStaysPosed(before: Flows, alias: string, desired: seq<FlowExecution>)
    requires WellPosed(before, alias, desired) && alias !in before
    ensures WellPosed(before[alias := map[]], alias, desired)
  {
    PosedFrame(before, before[alias := map[]], {alias}, alias, desired);
  }

  lemma EmptyFlowStaysBuildable(before: Flows, idsBefore: map<string, string>, idsAfter: map<string, string>,
                                alias: string, desired: seq<FlowExecution>)
    requires UniqueAliases(alias, desired) && alias !in before && Extends(idsBefore, idsAfter)
    requires Buildable(before, idsBefore, alias, desired)
    ensures Buildable(before[alias := map[]], idsAfter, alias, desired)
  {
    BuildableFrame(before, before[alias := map[]], idsBefore, idsAfter, {alias}, alias, desired);
  }

  // ----- what is left to build -----

  /** With any pick its search may end with, an entry from the i-th on can still be put in place. */
  ghost predicate BuildableFrom(flows: Flows, flowIds: map<string, string>, es0: Executions,
                                desired: seq<FlowExecution>, i: nat)
  {
    forall picks :: i < |picks| <= |desired| && Greedy(es0, desired, picks) ==>
      var last := |picks| - 1;
      BuildableAt(flows, flowIds, es0, picks[last], desired[last])
  }

  lemma AllIsBuildable(flows: Flows, flowIds: map<string, string>, alias: string, desired: seq<FlowExecution>)
    requires Buildable(flows, flowIds, alias, desired) && alias in flows
    ensures BuildableFrom(flows, flowIds, flows[alias], desired, 0)
  {
  }

  lemma NextIsBuildable(flows: Flows, flowIds: map<string, string>, es0: Executions, desired: seq<FlowExecution>,
                        picks: seq<Option<string>>, pick: Option<string>)
    requires Greedy(es0, desired, picks) && |picks| < |desired|
    requires BuildableFrom(flows, flowIds, es0, desired, |picks|)
    requires Pickable(es0, desired[|picks|], Taken(picks), pick)
    ensures BuildableAt(flows, flowIds, es0, pick, desired[|picks|])
  {
    hide BuildableAt, Pickable;
    GreedyExtends(es0, desired, picks, pick);
    var longer := picks + [pick];
    assert longer[|longer| - 1] == pick;
  }

  /** A step for one entry leaves the later ones buildable. */
  lemma StepKeepsBuildable(before: Flows, after: Flows, idsBefore: map<string, string>, idsAfter: map<string, string>,
                           es0: Executions, alias: string, desired: seq<FlowExecution>, i: nat)
    requires i < |desired| && UniqueAliases(alias, desired)
    requires SameExcept(before, after, {alias} + Aliases(desired[i])) && Extends(idsBefore, idsAfter)
    requires BuildableFrom(before, idsBefore, es0, desired, i)
    ensures BuildableFrom(after, idsAfter, es0, desired, i + 1)
  {
    hide BuildableAt, UniqueAliases, Greedy, SameExcept, Extends, Aliases;
    forall picks | i + 1 < |picks| <= |desired| && Greedy(es0, desired, picks)
      ensures var last := |picks| - 1; BuildableAt(after, idsAfter, es0, picks[last], desired[last])
    {
      var last := |picks| - 1;
      SiblingsDisjoint(alias, desired, i, last);
      BuildableAtFrame(before, after, idsBefore, idsAfter, {alias} + Aliases(desired[i]), es0, picks[last],
                       desired[last]);
    }
  }

  /** The execution points at the declared subflow, which exists and can be built. */
  ghost predicate Linked(flows: Flows, flowIds: map<string, string>, want: FlowExecution, current: Execution) {
    want.flow.Some? ==>
      && current.flowId != "" && current.flowId in flowIds && flowIds[current.flowId] == want.flow.value.alias
      && want.flow.value.alias in flows
      && Buildable(flows, flowIds, want.flow.value.alias, want.flow.value.executions)
  }

  /** A created subflow is empty and points at itself. */
  lemma CreatedIsLinked(before: Flows, after: Flows, idsBefore: map<string, string>, idsAfter: map<string, string>,
                        es0: Executions, alias: string, want: FlowExecution, e: Execution)
    requires Added(before, after, alias, want, e) && Extends(idsBefore, idsAfter)
    requires alias !in Aliases(want)
    requires want.flow.Some? ==> UniqueAliases(want.flow.value.alias, want.flow.value.executions)
    requires want.flow.Some? ==>
               e.flowId != "" && e.flowId in idsAfter && idsAfter[e.flowId] == want.flow.value.alias
    requires BuildableAt(before, idsBefore, es0, None, want)
    ensures Linked(after, idsAfter, want, e)
  {
    if want.flow.Some? {
      var f := want.flow.value;
      BuildableFrame(before, after, idsBefore, idsAfter, {alias, f.alias}, f.alias, f.executions);
    }
  }

  lemma PickedIsLinked(flows: Flows, flowIds: map<string, string>, es0: Executions, want: FlowExecution, e: Execution)
    requires e.id in es0 && es0[e.id] == e && BuildableAt(flows, flowIds, es0, Some(e.id), want)
    ensures Linked(flows, flowIds, want, e)
  {
  }

  /** A created subflow is as well posed as it was when it did not exist. */
  lemma CreatedIsPosed(before: Flows, after: Flows, alias: string, want: FlowExecution, e: Execution)
    requires Added(before, after, alias, want, e) && PosedBelow(before, want)
    requires alias !in Aliases(want)
    requires want.flow.Some? ==> UniqueAliases(want.flow.value.alias, want.flow.value.executions)
    ensures PosedBelow(after, want)
  {
    if want.flow.Some? {
      var f := want.flow.value;
      PosedFrame(before, after, {alias, f.alias}, f.alias, f.executions);
    }
  }
}
