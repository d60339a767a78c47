/**
 When the searches keep finding the same executions, exactly, and declarations
 for which they do.
 */
module AuthFlowConditions {
  import opened Wrappers
  import opened Sequences
  import opened AuthFlowModel
  import opened AuthFlowStore
  import opened AuthFlowLemmas

  // ----- a flow that converged -----

  /** `claims` names every execution of the flow, the i-th at priority i: a flow a pass has ordered. */
  ghost predicate Standing(es: Executions, desired: seq<FlowExecution>, claims: seq<string>) {
    && |claims| == |desired| && Claims(es, desired, claims)
    && (forall id :: id in es ==> id in claims && es[id].id == id)
    && (forall k :: 0 <= k < |claims| ==> es[claims[k]].priority == k)
  }

  lemma ConvergedStands(flows: Flows, flowIds: map<string, string>, alias: string, desired: seq<FlowExecution>,
                        claims: seq<string>)
    requires WellKeyed(flows) && ConvergedBy(flows, flowIds, alias, desired, claims)
    ensures Standing(flows[alias], desired, claims)
  {
  }

  /** The places 0 to n - 1 with the j-th first, the others in order. */
  function Place(j: nat, k: nat): nat {
    if k == 0 then j else if k <= j then k - 1 else k
  }

  /** The listing of the flow that starts with its j-th execution. */
  function ListedFirst(es: Executions, claims: seq<string>, j: nat): (rows: seq<Execution>)
    requires j < |claims| && forall k :: 0 <= k < |claims| ==> claims[k] in es
    ensures |rows| == |claims| && rows[0] == es[claims[j]]
    ensures forall k :: 0 <= k < |claims| ==> rows[k] == es[claims[Place(j, k)]]
  {
    seq(|claims|, k requires 0 <= k < |claims| => es[claims[Place(j, k)]])
  }

  lemma EveryPlace(j: nat, n: nat, p: nat) returns (k: nat)
    requires j < n && p < n
    ensures k < n && Place(j, k) == p
  {
    k := if p == j then 0 else if p < j then p + 1 else p;
  }

  lemma ListedFirstLists(es: Executions, desired: seq<FlowExecution>, claims: seq<string>, j: nat)
    requires Standing(es, desired, claims) && j < |claims|
    ensures Listing(es, ListedFirst(es, claims, j))
  {
    hide Compatible, Standing, ListedFirst, AllDifferent, Place;
    StandingMeans(es, desired, claims);
    var rows := ListedFirst(es, claims, j);
    forall k | 0 <= k < |rows|
      ensures rows[k].id in es && es[rows[k].id] == rows[k]
    {
      PlacesDiffer(j, |claims|, k, k);
    }
    forall id | id in es
      ensures es[id] in rows
    {
      var p :| 0 <= p < |claims| && claims[p] == id;
      var k := EveryPlace(j, |claims|, p);
      assert rows[k] == es[id];
    }
    forall k, l | 0 <= k < l < |rows|
      ensures rows[k].id != rows[l].id
    {
      PlacesDiffer(j, |claims|, k, l);
      ClaimsDiffer(claims, Place(j, k), Place(j, l));
    }
  }

  lemma StandingMeans(es: Executions, desired: seq<FlowExecution>, claims: seq<string>)
    requires Standing(es, desired, claims)
    ensures AllDifferent(claims) && forall k :: 0 <= k < |claims| ==> claims[k] in es && es[claims[k]].id == claims[k]
    ensures forall id :: id in es ==> id in claims
  {
    hide Compatible;
  }

  lemma PlacesDiffer(j: nat, n: nat, k: nat, l: nat)
    requires j < n && k <= l < n
    ensures Place(j, k) < n && Place(j, l) < n && (k < l ==> Place(j, k) != Place(j, l))
  {
  }

  lemma ClaimsDiffer(claims: seq<string>, k: nat, l: nat)
    requires AllDifferent(claims) && k < |claims| && l < |claims| && k != l
    ensures claims[k] != claims[l]
  {
  }

  /** Listing a later execution of no greater rank first misleads the search for an earlier entry. */
  lemma Misled(es: Executions, desired: seq<FlowExecution>, claims: seq<string>, i: nat, j: nat)
    requires Standing(es, desired, claims) && i < j < |claims|
    requires Rank(es[claims[j]], desired[i]) <= Rank(es[claims[i]], desired[i])
    ensures Match(ListedFirst(es, claims, j), desired[i], Elements(claims[..i])) != Some(es[claims[i]])
  {
    var rows := ListedFirst(es, claims, j);
    NotAmongFirst(claims, i, j);
    HeadIsPreferred(rows, desired[i], Elements(claims[..i]), es[claims[i]]);
  }

  lemma NotAmongFirst(claims: seq<string>, i: nat, j: nat)
    requires AllDifferent(claims) && i <= j < |claims|
    ensures claims[j] !in Elements(claims[..i])
  {
  }

  /** The i-th search finds the i-th execution, however the flow is listed. */
  ghost predicate AlwaysFound(es: Executions, desired: seq<FlowExecution>, claims: seq<string>, i: nat)
    requires i < |desired| == |claims| && claims[i] in es
  {
    forall live :: Listing(es, live) ==> Match(live, desired[i], Elements(claims[..i])) == Some(es[claims[i]])
  }

  /**
   With the executions in place, every search finds the execution of its own entry
   whatever the order of the listing if and only if each execution has a smaller rank
   for its entry than any later one.
   */
  lemma PairedExactly(es: Executions, desired: seq<FlowExecution>, claims: seq<string>)
    requires Standing(es, desired, claims)
    ensures (forall i :: 0 <= i < |claims| ==> AlwaysFound(es, desired, claims, i)) <==> Paired(es, desired, claims)
  {
    hide Match, Rank, Compatible, Listing;
    if Paired(es, desired, claims) {
      forall i, live | 0 <= i < |claims| && Listing(es, live)
        ensures Match(live, desired[i], Elements(claims[..i])) == Some(es[claims[i]])
      {
        ListingStartsFresh(es, live);
        MatchFindsClaim(es, live, desired, claims, i, Elements(claims[..i]));
      }
    } else {
      var i, j :| 0 <= i < j < |claims| && Rank(es[claims[i]], desired[i]) >= Rank(es[claims[j]], desired[i]);
      ListedFirstLists(es, desired, claims, j);
      Misled(es, desired, claims, i, j);
      assert !AlwaysFound(es, desired, claims, i);
    }
  }

  lemma QuietIsFound(es: Executions, live: seq<Execution>, desired: seq<FlowExecution>, claims: seq<string>, i: nat)
    requires Standing(es, desired, claims) && i <= |claims| && Fresh(es, live, {}) && OrderIsQuiet(live, desired)
    ensures Used(live, desired, i) == Elements(claims[..i])
    ensures i < |claims| ==> Match(live, desired[i], Elements(claims[..i])) == Some(es[claims[i]])
  {
    hide Match, Rank, Compatible;
    if i > 0 {
      QuietIsFound(es, live, desired, claims, i - 1);
      NotBefore(claims, i - 1);
    }
    assert claims[..0] == [];
    if i < |claims| {
      assert QuietAt(live, desired, i);
      MatchFinds(live, desired[i], Elements(claims[..i]));
      NotAmongFirst(claims, i, i);
      assert es[claims[i]] in live;
      var found := Match(live, desired[i], Elements(claims[..i])).value;
      var k :| 0 <= k < |claims| && claims[k] == found.id;
    }
  }

  lemma StandingIsQuietExactly(es: Executions, desired: seq<FlowExecution>, claims: seq<string>)
    requires Standing(es, desired, claims)
    ensures AlwaysQuiet(es, desired) <==> Paired(es, desired, claims)
  {
    hide Match, Rank, Compatible, Listing, OrderIsQuiet;
    if Paired(es, desired, claims) {
      forall live | Listing(es, live)
        ensures OrderIsQuiet(live, desired)
      {
        ListingStartsFresh(es, live);
        FoundIsQuiet(es, live, desired, claims, |claims|);
        QuietThroughout(live, desired);
      }
    } else {
      var i, j :| 0 <= i < j < |claims| && Rank(es[claims[i]], desired[i]) >= Rank(es[claims[j]], desired[i]);
      var live := ListedFirst(es, claims, j);
      ListedFirstLists(es, desired, claims, j);
      ListingStartsFresh(es, live);
      Misled(es, desired, claims, i, j);
      if OrderIsQuiet(live, desired) {
        QuietIsFound(es, live, desired, claims, i);
      }
      assert !OrderIsQuiet(live, desired);
    }
  }

  /** The ordering of the flow changes none of its executions, whatever order they are listed in. */
  ghost predicate AlwaysQuiet(es: Executions, desired: seq<FlowExecution>) {
    forall live :: Listing(es, live) ==> OrderIsQuiet(live, desired)
  }

  /**
   A converged flow is left alone by the ordering of its executions, whatever order
   they are listed in, if and only if they are told apart.
   */
  lemma OrderIsQuietExactly(flows: Flows, flowIds: map<string, string>, alias: string, desired: seq<FlowExecution>,
                            claims: seq<string>)
    requires WellKeyed(flows) && ConvergedBy(flows, flowIds, alias, desired, claims)
    ensures AlwaysQuiet(flows[alias], desired) <==> Paired(flows[alias], desired, claims)
  {
    ConvergedStands(flows, flowIds, alias, desired, claims);
    StandingIsQuietExactly(flows[alias], desired, claims);
  }

  /** The ordering changes nothing at any level of the tree. */
  ghost predicate QuietTree(flows: Flows, alias: string, desired: seq<FlowExecution>)
    decreases desired
  {
    && AlwaysQuiet(ExecutionsOf(flows, alias), desired)
    && forall i :: 0 <= i < |desired| && desired[i].flow.Some? ==>
         QuietTree(flows, desired[i].flow.value.alias, desired[i].flow.value.executions)
  }

  /** So a converged tree is calm if and only if the ordering leaves it alone at every level, for every listing. */
  lemma {:induction false} CalmExactly(flows: Flows, flowIds: map<string, string>, alias: string,
                                       desired: seq<FlowExecution>)
    requires WellKeyed(flows) && Converged(flows, flowIds, alias, desired)
    ensures Calm(flows, flowIds, alias, desired) <==> QuietTree(flows, alias, desired)
    decreases desired
  {
    hide WellKeyed, AlwaysQuiet, Paired, Compatible, AllDifferent;
    var claims :| ConvergedBy(flows, flowIds, alias, desired, claims);
    forall other | ConvergedBy(flows, flowIds, alias, desired, other)
      ensures AlwaysQuiet(flows[alias], desired) <==> Paired(flows[alias], desired, other)
    {
      OrderIsQuietExactly(flows, flowIds, alias, desired, other);
    }
    forall i | 0 <= i < |desired| && desired[i].flow.Some?
      ensures CalmBelow(flows, flowIds, desired[i])
              <==> QuietTree(flows, desired[i].flow.value.alias, desired[i].flow.value.executions)
    {
      assert Carries(flows, flowIds, flows[alias][claims[i]], desired[i]);
      CalmExactly(flows, flowIds, desired[i].flow.value.alias, desired[i].flow.value.executions);
    }
    if QuietTree(flows, alias, desired) {
      assert CalmBy(flows, flowIds, alias, desired, claims);
    }
  }

  /** Told apart, the searches find their own executions, each with the priority of its place. */
  lemma FoundInPlace(es: Executions, live: seq<Execution>, desired: seq<FlowExecution>, claims: seq<string>, i: nat)
    requires Standing(es, desired, claims) && Paired(es, desired, claims) && i < |claims| && Fresh(es, live, {})
    ensures claims[i] in es && es[claims[i]].id == claims[i] && es[claims[i]].priority == i && AllDifferent(claims)
    ensures Match(live, desired[i], Elements(claims[..i])) == Some(es[claims[i]])
  {
    hide Match, Rank, Compatible;
    MatchFindsClaim(es, live, desired, claims, i, Elements(claims[..i]));
  }

  lemma {:induction false} FoundIsQuiet(es: Executions, live: seq<Execution>, desired: seq<FlowExecution>,
                                        claims: seq<string>, i: nat)
    requires Standing(es, desired, claims) && Paired(es, desired, claims) && i <= |claims| && Fresh(es, live, {})
    ensures Used(live, desired, i) == Elements(claims[..i])
    ensures forall k :: 0 <= k < i ==> QuietAt(live, desired, k)
  {
    hide Match, Claims, Paired, Fresh, AllDifferent;
    assert claims[..0] == [];
    if i > 0 {
      FoundIsQuiet(es, live, desired, claims, i - 1);
      FoundInPlace(es, live, desired, claims, i - 1);
      NotBefore(claims, i - 1);
    }
  }

  /** Two leaves of one authenticator that neither has an alias for are never told apart. */
  lemma TwinsAreNeverPaired(es: Executions, desired: seq<FlowExecution>, claims: seq<string>, i: nat, j: nat)
    requires Standing(es, desired, claims) && i < j < |claims|
    requires desired[i].flow.None? && desired[j].flow.None? && desired[i].alias == "" && desired[j].alias == ""
    requires desired[i].authenticator == desired[j].authenticator
    ensures !Paired(es, desired, claims)
  {
    assert Rank(es[claims[j]], desired[i]) <= Rank(es[claims[i]], desired[i]);
  }

  /** Leaves of one authenticator whose aliases differ are told apart once each carries its alias. */
  lemma LabelsArePaired(es: Executions, desired: seq<FlowExecution>, claims: seq<string>)
    requires Standing(es, desired, claims)
    requires forall i :: 0 <= i < |desired| ==>
               desired[i].flow.None? && desired[i].alias != "" && es[claims[i]].alias == desired[i].alias
    requires forall i, j :: 0 <= i < j < |desired| ==> desired[i].alias != desired[j].alias
    ensures Paired(es, desired, claims)
  {
    forall i, j | 0 <= i < j < |claims|
      ensures Rank(es[claims[i]], desired[i]) < Rank(es[claims[j]], desired[i])
    {
      assert Compatible(es[claims[i]], desired[i]);
    }
  }

  // ----- a calm flow can be put in place again -----

  lemma {:induction false} PicksAreClaims(es: Executions, desired: seq<FlowExecution>, claims: seq<string>,
                                          picks: seq<Option<string>>)
    requires |claims| == |desired| && Claims(es, desired, claims) && Paired(es, desired, claims)
    requires (forall id :: id in es ==> id in claims) && Greedy(es, desired, picks)
    ensures Taken(picks) == Elements(claims[..|picks|])
    ensures forall k :: 0 <= k < |picks| ==> picks[k] == Some(claims[k])
  {
    hide Rank, Compatible, Greedy, Pickable, Taken, Paired, Claims, AllDifferent, Elements;
    assert claims[..0] == [];
    GreedyIsWithin(es, desired, picks);
    if picks == [] {
      NoElements();
      NothingTaken();
    } else {
      var last := |picks| - 1;
      var fewer := picks[..last];
      GreedyPrefix(es, desired, picks);
      PicksAreClaims(es, desired, claims, fewer);
      PickIsClaim(es, desired, claims, last, picks[last]);
      TakenGrows(fewer, claims[last]);
      assert picks == fewer + [Some(claims[last])];
      assert claims[..last + 1] == claims[..last] + [claims[last]];
      Append(claims[..last], claims[last]);
    }
  }

  /** When what stands for the earlier entries is taken, only its own execution can be picked for the i-th. */
  lemma PickIsClaim(es: Executions, desired: seq<FlowExecution>, claims: seq<string>, i: nat, pick: Option<string>)
    requires i < |claims| == |desired| && Claims(es, desired, claims) && Paired(es, desired, claims)
    requires forall id :: id in es ==> id in claims
    requires Pickable(es, desired[i], Elements(claims[..i]), pick)
    ensures pick == Some(claims[i])
  {
    hide Rank, Compatible;
    NotAmongFirst(claims, i, i);
    if pick.Some? {
      forall k | 0 <= k < i
        ensures claims[k] in Elements(claims[..i])
      {
        assert claims[..i][k] == claims[k];
      }
      var k :| 0 <= k < |claims| && claims[k] == pick.value;
    }
  }

  lemma GreedyPrefix(es: Executions, desired: seq<FlowExecution>, picks: seq<Option<string>>)
    requires Greedy(es, desired, picks) && picks != []
    ensures var last := |picks| - 1;
            && last < |desired| && Greedy(es, desired, picks[..last])
            && Pickable(es, desired[last], Taken(picks[..last]), picks[last])
  {
    hide Pickable;
    var fewer := picks[..|picks| - 1];
    assert forall k :: 0 <= k < |fewer| ==> picks[..k] == fewer[..k];
  }

  lemma NothingTaken()
    ensures Taken([]) == {}
  {
  }

  lemma TakenGrows(picks: seq<Option<string>>, id: string)
    ensures Taken(picks + [Some(id)]) == Taken(picks) + {id}
  {
    var longer := picks + [Some(id)];
    assert longer[|picks|] == Some(id);
    forall x | x in Taken(picks)
      ensures x in Taken(longer)
    {
      var k :| 0 <= k < |picks| && picks[k].Some? && picks[k].value == x;
      assert longer[k] == picks[k];
    }
  }

  lemma {:induction false} CalmIsBuildable(flows: Flows, flowIds: map<string, string>, alias: string,
                                           desired: seq<FlowExecution>)
    requires Calm(flows, flowIds, alias, desired)
    ensures Buildable(flows, flowIds, alias, desired)
    decreases desired
  {
    hide Rank, Compatible, Greedy, Pickable;
    var claims :| CalmBy(flows, flowIds, alias, desired, claims);
    var es := flows[alias];
    forall picks | picks != [] && Greedy(es, desired, picks)
      ensures |picks| <= |desired|
      ensures var last := |picks| - 1; BuildableAt(flows, flowIds, es, picks[last], desired[last])
    {
      GreedyIsWithin(es, desired, picks);
      PicksAreClaims(es, desired, claims, picks);
      var last := |picks| - 1;
      CarriedIsBuildable(flows, flowIds, es, claims[last], desired[last]);
    }
  }

  lemma GreedyIsWithin(es: Executions, desired: seq<FlowExecution>, picks: seq<Option<string>>)
    requires Greedy(es, desired, picks)
    ensures |picks| <= |desired|
  {
  }

  lemma {:induction false} CarriedIsBuildable(flows: Flows, flowIds: map<string, string>, es: Executions,
                                              id: string, want: FlowExecution)
    requires id in es && Carries(flows, flowIds, es[id], want) && CalmBelow(flows, flowIds, want)
    ensures BuildableAt(flows, flowIds, es, Some(id), want)
    decreases want
  {
    if want.flow.Some? {
      var f := want.flow.value;
      CalmIsConverged(flows, flowIds, f.alias, f.executions);
      CalmIsBuildable(flows, flowIds, f.alias, f.executions);
    }
  }

  // ----- declarations for which nothing exists yet -----

  /** Every leaf of the tree names its authenticator. */
  ghost predicate AllNamed(desired: seq<FlowExecution>) {
    forall i :: 0 <= i < |desired| ==>
      if desired[i].flow.Some? then AllNamed(desired[i].flow.value.executions) else desired[i].authenticator != ""
  }

  /** No search for `first` accepts what a pass creates for `second`. */
  predicate Apart(first: FlowExecution, second: FlowExecution) {
    if first.flow.Some? then
      second.flow.Some? ==> first.flow.value.alias != "" && first.flow.value.alias != second.flow.value.alias
    else
      second.flow.None? ==>
        && second.authenticator != first.authenticator
        && (first.alias != "" && second.config.Some? ==> second.config.value.alias != first.alias)
  }

  ghost predicate SiblingsApart(desired: seq<FlowExecution>) {
    forall i, j :: 0 <= i < j < |desired| ==> Apart(desired[i], desired[j])
  }

  ghost predicate AllApart(desired: seq<FlowExecution>) {
    && SiblingsApart(desired)
    && forall i :: 0 <= i < |desired| && desired[i].flow.Some? ==> AllApart(desired[i].flow.value.executions)
  }

  /** A new execution for `want` with nothing else to its name. */
  function Plain(want: FlowExecution): (e: Execution)
    ensures NewFor(e, want)
  {
    if want.flow.Some? then Execution("", true, "", want.flow.value.alias, "", "", 0, "", None)
    else Execution("", false, want.authenticator, "", "", "", 0, "", None)
  }

  /** The same after the config was written and labels it. */
  function Labelled(want: FlowExecution): (e: Execution)
    ensures NewFor(Plain(want), want) && Kin(Plain(want), e, want)
  {
    if want.flow.None? && want.config.Some? then Plain(want).(alias := want.config.value.alias) else Plain(want)
  }

  /** Told apart in whatever form a pass leaves them: exactly when no search for the first accepts the second. */
  lemma NewAreTold(es: Executions, first: FlowExecution, second: FlowExecution)
    requires first.flow.None? ==> first.authenticator != ""
    requires second.flow.None? ==> second.authenticator != ""
    ensures Apart(first, second) <==>
              forall e, f :: Outcome(es, first, None, e) && Outcome(es, second, None, f) ==>
                Rank(e, first) < Rank(f, first)
  {
    if Apart(first, second) {
      forall e, f | Outcome(es, first, None, e) && Outcome(es, second, None, f)
        ensures Rank(e, first) < Rank(f, first)
      {
      }
    } else {
      var e, f := Plain(first), Labelled(second);
      assert Starts(es, first, None, e) && Kin(e, e, first);
      assert Starts(es, second, None, Plain(second)) && Kin(Plain(second), f, second);
      assert Starts(es, second, None, Plain(second)) && Kin(Plain(second), Plain(second), second);
      assert Rank(e, first) >= Rank(f, first) || Rank(e, first) >= Rank(Plain(second), first);
    }
  }

  /** Where there is nothing to pick, nothing is picked. */
  lemma NothingToPick(desired: seq<FlowExecution>, picks: seq<Option<string>>)
    ensures Greedy(map[], desired, picks) <==> |picks| <= |desired| && forall k :: 0 <= k < |picks| ==> picks[k] == None
  {
  }

  lemma NewCompatible(es: Executions, want: FlowExecution, e: Execution)
    requires Outcome(es, want, None, e)
    ensures Compatible(e, want)
  {
  }

  lemma SiblingsAreTold(desired: seq<FlowExecution>)
    requires forall i :: 0 <= i < |desired| && desired[i].flow.None? ==> desired[i].authenticator != ""
    ensures SiblingsApart(desired) <==>
              forall picks :: |picks| == |desired| && Greedy(map[], desired, picks) ==> Tellable(map[], desired, picks)
  {
    hide Apart, Outcome, Rank, Compatible, Greedy;
    var none := seq(|desired|, k => None);
    NothingToPick(desired, none);
    forall picks | |picks| == |desired| && Greedy(map[], desired, picks)
      ensures picks == none
    {
      NothingToPick(desired, picks);
    }
    forall i, e | 0 <= i < |desired| && Outcome(map[], desired[i], None, e)
      ensures Compatible(e, desired[i])
    {
      NewCompatible(map[], desired[i], e);
    }
    forall i, j | 0 <= i < j < |desired|
      ensures Apart(desired[i], desired[j]) <==>
                forall e, f :: Outcome(map[], desired[i], None, e) && Outcome(map[], desired[j], None, f) ==>
                  Rank(e, desired[i]) < Rank(f, desired[i])
    {
      NewAreTold(map[], desired[i], desired[j]);
    }
    assert SiblingsApart(desired) <==> Tellable(map[], desired, none);
  }

  /**
   Where none of its flows exists yet, a tree whose leaves are named is well posed
   if and only if no search for an entry accepts what is created for a later sibling,
   and in any case it can be built.
   */
  lemma {:induction false} NothingThere(flows: Flows, flowIds: map<string, string>, alias: string,
                                        desired: seq<FlowExecution>)
    requires UniqueAliases(alias, desired) && AllNamed(desired)
    requires Bare(flows, alias, desired)
    ensures WellPosed(flows, alias, desired) <==> AllApart(desired)
    ensures Buildable(flows, flowIds, alias, desired)
    decreases desired
  {
    hide SiblingsApart, Greedy, Tellable;
    SiblingsAreTold(desired);
    forall i | 0 <= i < |desired| && desired[i].flow.Some?
      ensures Posed(flows, desired[i].flow.value.alias, desired[i].flow.value.executions)
              <==> AllApart(desired[i].flow.value.executions)
      ensures BuildableAt(flows, flowIds, map[], None, desired[i])
    {
      AliasesInTree(desired, i);
      NothingThere(flows, flowIds, desired[i].flow.value.alias, desired[i].flow.value.executions);
    }
    forall picks | picks != [] && Greedy(map[], desired, picks)
      ensures |picks| <= |desired|
      ensures var last := |picks| - 1; BuildableAt(flows, flowIds, map[], picks[last], desired[last])
    {
      NothingToPick(desired, picks);
    }
  }

  // ----- and what becomes of the others -----

  /** No two leaves name the same authenticator. */
  predicate LeavesDiffer(desired: seq<FlowExecution>) {
    forall i, j :: 0 <= i < j < |desired| && desired[i].flow.None? && desired[j].flow.None? ==>
      desired[i].authenticator != desired[j].authenticator
  }

  /**
   When exactly these aliases show, whatever stands for the second entry suits the
   first as well as anything does: leaves of one authenticator without labels, a leaf
   shown under the first one's alias, or a subflow without an alias to tell it by.
   */
  predicate Clash(labels: set<string>, desired: seq<FlowExecution>, first: FlowExecution, second: FlowExecution) {
    if first.flow.Some? then second.flow.Some? && first.flow.value.alias == "" && labels == {}
    else
      && second.flow.None?
      && ((second.authenticator == first.authenticator && labels == {})
          || (second.config.Some? && second.config.value.alias == first.alias && first.alias != ""
              && labels == {first.alias} && LeavesDiffer(desired)))
  }

  ghost predicate Misleading(labels: set<string>, desired: seq<FlowExecution>) {
    exists i, j :: 0 <= i < j < |desired| && Clash(labels, desired, desired[i], desired[j])
  }

  /** At some level of the tree. */
  ghost predicate MisleadingTree(labels: set<string>, desired: seq<FlowExecution>) {
    Misleading(labels, desired) || exists want :: want in desired && MisleadingBelow(labels, want)
  }

  ghost predicate MisleadingBelow(labels: set<string>, want: FlowExecution) {
    want.flow.Some? && MisleadingTree(labels, want.flow.value.executions)
  }

  /** Among new executions, what suits the second of two clashing entries ranks no worse for the first than anything. */
  lemma ClashRanks(es: Executions, labels: set<string>, desired: seq<FlowExecution>, news: seq<string>,
                   i: nat, j: nat, own: Execution, other: Execution)
    requires NewBy(es, Some(labels), desired, news) && i < j < |desired|
    requires Clash(labels, desired, desired[i], desired[j])
    requires own.id in es && es[own.id] == own && Compatible(own, desired[i])
    requires other.id in es && es[other.id] == other && Compatible(other, desired[j])
    ensures Rank(other, desired[i]) <= Rank(own, desired[i])
  {
    var k :| 0 <= k < |news| && news[k] == own.id;
    var l :| 0 <= l < |news| && news[l] == other.id;
    assert IsNew(Some(labels), desired[k], own) && IsNew(Some(labels), desired[l], other);
    if desired[i].flow.None? && labels != {} && Fits(ByAuthenticator, other, desired[j]) {
      assert l == j;
    }
  }

  /** So whichever executions are taken to stand for the entries, they are not told apart. */
  lemma MisledIsNotPaired(es: Executions, labels: set<string>, desired: seq<FlowExecution>, news: seq<string>,
                          claims: seq<string>)
    requires NewBy(es, Some(labels), desired, news) && Misleading(labels, desired)
    requires |claims| == |desired| && Claims(es, desired, claims) && forall id :: id in es ==> es[id].id == id
    ensures !Paired(es, desired, claims)
  {
    hide Rank, Compatible, Clash, NewBy;
    var i, j :| 0 <= i < j < |desired| && Clash(labels, desired, desired[i], desired[j]);
    ClashRanks(es, labels, desired, news, i, j, es[claims[i]], es[claims[j]]);
  }

  /** A new tree is not calm when some level of it is misleading under the labels that show. */
  lemma {:induction false} MisledIsNeverCalm(flows: Flows, flowIds: map<string, string>, labels: set<string>,
                                             alias: string, desired: seq<FlowExecution>)
    requires WellKeyed(flows) && AllNew(flows, Some(labels), alias, desired) && MisleadingTree(labels, desired)
    ensures !Calm(flows, flowIds, alias, desired)
    decreases desired
  {
    hide WellKeyed, Paired, Misleading, NewBy;
    if Calm(flows, flowIds, alias, desired) {
      var claims := Plan(flows, flowIds, alias, desired);
      if Misleading(labels, desired) {
        var news :| NewBy(flows[alias], Some(labels), desired, news);
        ConvergedStands(flows, flowIds, alias, desired, claims);
        MisledIsNotPaired(flows[alias], labels, desired, news, claims);
      } else {
        var want :| want in desired && MisleadingBelow(labels, want);
        var i :| 0 <= i < |desired| && desired[i] == want;
        MisledIsNeverCalm(flows, flowIds, labels, desired[i].flow.value.alias, desired[i].flow.value.executions);
      }
    }
  }

  /** Two siblings one of which a search for the other may accept clash under some labels. */
  lemma UnapartClash(alias: string, desired: seq<FlowExecution>) returns (labels: set<string>)
    requires UniqueAliases(alias, desired) && !SiblingsApart(desired)
    ensures Misleading(labels, desired)
  {
    hide UniqueAliases;
    var i, j :| 0 <= i < j < |desired| && !Apart(desired[i], desired[j]);
    SiblingsDisjoint(alias, desired, i, j);
    labels := {};
    if desired[i].flow.None? && desired[j].authenticator != desired[i].authenticator {
      if LeavesDiffer(desired) {
        labels := {desired[i].alias};
      } else {
        i, j :| 0 <= i < j < |desired| && desired[i].flow.None? && desired[j].flow.None?
                && desired[i].authenticator == desired[j].authenticator;
      }
    }
    assert Clash(labels, desired, desired[i], desired[j]);
  }

  /** And so for a tree at some level of which siblings are not apart. */
  lemma {:induction false} UnapartMisleads(alias: string, desired: seq<FlowExecution>) returns (labels: set<string>)
    requires UniqueAliases(alias, desired) && !AllApart(desired)
    ensures MisleadingTree(labels, desired)
    decreases desired
  {
    if !SiblingsApart(desired) {
      labels := UnapartClash(alias, desired);
    } else {
      var i :| 0 <= i < |desired| && desired[i].flow.Some? && !AllApart(desired[i].flow.value.executions);
      labels := UnapartMisleads(desired[i].flow.value.alias, desired[i].flow.value.executions);
      assert MisleadingBelow(labels, desired[i]);
    }
  }

  // ----- declarations told apart by label -----

  /** Leaves with an alias of their own, which their config, if any, carries too, and a live execution that has it. */
  ghost predicate LabelledSiblings(es: Executions, desired: seq<FlowExecution>) {
    && (forall i :: 0 <= i < |desired| ==>
          && desired[i].flow.None? && desired[i].alias != ""
          && (desired[i].config.Some? ==> desired[i].config.value.alias == desired[i].alias)
          && exists id :: id in es && Fits(ByAlias, es[id], desired[i]))
    && (forall i, j :: 0 <= i < j < |desired| ==> desired[i].alias != desired[j].alias)
  }

  lemma {:induction false} PicksAreLabelled(es: Executions, desired: seq<FlowExecution>, picks: seq<Option<string>>)
    requires LabelledSiblings(es, desired) && Greedy(es, desired, picks)
    ensures forall k :: 0 <= k < |picks| ==>
              picks[k].Some? && picks[k].value in es && Fits(ByAlias, es[picks[k].value], desired[k])
  {
    hide Greedy;
    if picks != [] {
      var last := |picks| - 1;
      GreedyPrefix(es, desired, picks);
      PicksAreLabelled(es, desired, picks[..last]);
      LabelledIsPicked(es, desired, picks[..last], last, picks[last]);
    }
  }

  lemma LabelledIsPicked(es: Executions, desired: seq<FlowExecution>, picks: seq<Option<string>>, i: nat,
                         pick: Option<string>)
    requires LabelledSiblings(es, desired) && i == |picks| < |desired| && Pickable(es, desired[i], Taken(picks), pick)
    requires forall k :: 0 <= k < i ==>
               picks[k].Some? && picks[k].value in es && Fits(ByAlias, es[picks[k].value], desired[k])
    ensures pick.Some? && pick.value in es && Fits(ByAlias, es[pick.value], desired[i])
  {
    var id :| id in es && Fits(ByAlias, es[id], desired[i]);
    assert Rank(es[id], desired[i]) == 0;
    assert id !in Taken(picks);
  }

  /** Siblings told apart by their labels are well posed, even when they share an authenticator. */
  lemma LabelledIsPosed(flows: Flows, alias: string, desired: seq<FlowExecution>)
    requires LabelledSiblings(ExecutionsOf(flows, alias), desired)
    ensures Posed(flows, alias, desired)
  {
    var es := ExecutionsOf(flows, alias);
    forall picks | |picks| == |desired| && Greedy(es, desired, picks)
      ensures Tellable(es, desired, picks)
    {
      PicksAreLabelled(es, desired, picks);
      forall i, e | 0 <= i < |desired| && Outcome(es, desired[i], picks[i], e)
        ensures e.alias == desired[i].alias && Compatible(e, desired[i]) && Rank(e, desired[i]) == 0
      {
      }
    }
  }

  // ----- declarations whose live executions suit one sibling each -----

  /** Writing the config leaves an execution found for the entry recognisable, by its alias or its authenticator. */
  ghost predicate StaysKnown(es: Executions, want: FlowExecution) {
    want.flow.None? && want.config.Some? && want.alias != "" && want.config.value.alias != want.alias ==>
      forall id :: id in es && Compatible(es[id], want) ==> Fits(ByAuthenticator, es[id], want)
  }

  /** No search for the first entry accepts a live execution that one for the second does, now or once labelled. */
  ghost predicate SuitsOne(es: Executions, first: FlowExecution, second: FlowExecution) {
    Apart(first, second) && forall id :: id in es && Compatible(es[id], second) ==> !Compatible(es[id], first)
  }

  /** Siblings that no live execution suits two of. */
  ghost predicate SeparateSiblings(es: Executions, desired: seq<FlowExecution>) {
    && (forall i :: 0 <= i < |desired| ==> StaysKnown(es, desired[i]))
    && (forall i, j :: 0 <= i < j < |desired| ==> SuitsOne(es, desired[i], desired[j]))
  }

  /** So at every level of the tree. */
  ghost predicate SeparateTree(flows: Flows, alias: string, desired: seq<FlowExecution>)
    decreases desired
  {
    && SeparateSiblings(ExecutionsOf(flows, alias), desired)
    && forall i :: 0 <= i < |desired| && desired[i].flow.Some? ==>
         SeparateTree(flows, desired[i].flow.value.alias, desired[i].flow.value.executions)
  }

  lemma OutcomeSuits(es: Executions, want: FlowExecution, pick: Option<string>, e: Execution)
    requires StaysKnown(es, want) && Outcome(es, want, pick, e)
    requires pick.Some? ==> pick.value in es && Compatible(es[pick.value], want)
    ensures Compatible(e, want)
  {
  }

  lemma OutcomeSuitsNoOther(es: Executions, first: FlowExecution, second: FlowExecution, pick: Option<string>,
                            f: Execution)
    requires SuitsOne(es, first, second) && Outcome(es, second, pick, f)
    requires pick.Some? ==> pick.value in es && Compatible(es[pick.value], second)
    ensures !Compatible(f, first)
  {
  }

  /** Siblings none of whose live or new executions suits an earlier one as well are well posed. */
  lemma {:induction false} SeparateIsPosed(flows: Flows, alias: string, desired: seq<FlowExecution>)
    requires SeparateTree(flows, alias, desired)
    ensures Posed(flows, alias, desired)
    decreases desired
  {
    hide Compatible, Outcome, StaysKnown, SuitsOne, Greedy;
    var es := ExecutionsOf(flows, alias);
    forall picks | |picks| == |desired| && Greedy(es, desired, picks)
      ensures Tellable(es, desired, picks)
    {
      PicksSuit(es, desired, picks);
      forall i, e | 0 <= i < |desired| && Outcome(es, desired[i], picks[i], e)
        ensures Compatible(e, desired[i])
      {
        OutcomeSuits(es, desired[i], picks[i], e);
      }
      forall i, j, f | 0 <= i < j < |desired| && Outcome(es, desired[j], picks[j], f)
        ensures !Compatible(f, desired[i])
      {
        OutcomeSuitsNoOther(es, desired[i], desired[j], picks[j], f);
      }
    }
    forall i | 0 <= i < |desired| && desired[i].flow.Some?
      ensures Posed(flows, desired[i].flow.value.alias, desired[i].flow.value.executions)
    {
      SeparateIsPosed(flows, desired[i].flow.value.alias, desired[i].flow.value.executions);
    }
  }

  lemma PicksSuit(es: Executions, desired: seq<FlowExecution>, picks: seq<Option<string>>)
    requires Greedy(es, desired, picks)
    ensures forall i :: 0 <= i < |picks| && picks[i].Some? ==>
              i < |desired| && picks[i].value in es && Compatible(es[picks[i].value], desired[i])
  {
    hide Compatible, Rank;
  }
}
