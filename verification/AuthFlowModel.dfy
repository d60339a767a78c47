/**
 Authentication flows: the declared tree of executions, what Keycloak stores for
 it, and when the two agree.
 */
module AuthFlowModel {
  import opened Wrappers
  import opened Sequences

  // ----- the declared tree -----

  datatype AuthConfig = AuthConfig(alias: string, values: map<string, string>)

  /** Either an authenticator execution (`flow.None?`) or a nested subflow. */
  datatype FlowExecution = FlowExecution(
    alias: string, requirement: string, authenticator: string,
    config: Option<AuthConfig>, flow: Option<FlowSpec>)

  datatype FlowSpec = FlowSpec(alias: string, provider: string, executions: seq<FlowExecution>)

  // ----- what Keycloak holds -----

  /** One live execution. `config` is the authenticator config attached to it. */
  datatype Execution = Execution(
    id: string, isFlow: bool, providerId: string, displayName: string, alias: string,
    requirement: string, priority: int, flowId: string, config: Option<AuthConfig>)

  type Executions = map<string, Execution>
  type Flows = map<string, Executions>

  /** A listed execution with the index Keycloak reports next to it. */
  datatype Listed = Listed(execution: Execution, index: int)

  datatype SyncError =
    RequestFailed | NeitherFlowNorAuthenticator | CreatedButNotFound | NoFlowId | WrongSubflow

  /** `live` says what is declared: the alias, each declared value that is not empty, and no other value. */
  ghost predicate Says(live: AuthConfig, declared: AuthConfig) {
    && live.alias == declared.alias
    && (forall key :: key in live.values <==> key in declared.values && declared.values[key] != "")
    && (forall key :: key in live.values ==> live.values[key] == declared.values[key])
  }

  /** The config the operator sends: empty values are dropped. */
  function Wanted(config: AuthConfig): (r: AuthConfig)
    ensures Says(r, config)
  {
    AuthConfig(config.alias, map k | k in config.values && config.values[k] != "" :: config.values[k])
  }

  /** What is declared leaves no choice of what to store. */
  lemma SaidIsDetermined(a: AuthConfig, b: AuthConfig, declared: AuthConfig)
    requires Says(a, declared) && Says(b, declared)
    ensures a == b
  {
    assert a.values.Keys == b.values.Keys;
    assert a.values == b.values;
  }

  // ----- matching -----

  datatype Tier = Subflow | ByAlias | ByAuthenticator

  predicate Fits(tier: Tier, e: Execution, want: FlowExecution) {
    match tier
    case Subflow =>
      want.flow.Some? && e.isFlow && (e.displayName == want.flow.value.alias || e.alias == want.flow.value.alias)
    case ByAlias => !e.isFlow && want.alias != "" && e.alias == want.alias
    case ByAuthenticator => !e.isFlow && want.authenticator != "" && e.providerId == want.authenticator
  }

  /** Some tier of the search for `want` accepts `e`. */
  predicate Compatible(e: Execution, want: FlowExecution) {
    if want.flow.Some? then Fits(Subflow, e, want) else Fits(ByAlias, e, want) || Fits(ByAuthenticator, e, want)
  }

  /** The first tier that accepts `e`: 0 for a subflow or an alias, 1 for an authenticator, 2 for none. */
  function Rank(e: Execution, want: FlowExecution): (r: nat)
    ensures r < 2 <==> Compatible(e, want)
    ensures r <= 2
  {
    if want.flow.Some? then (if Fits(Subflow, e, want) then 0 else 2)
    else if Fits(ByAlias, e, want) then 0
    else if Fits(ByAuthenticator, e, want) then 1
    else 2
  }

  /** A subflow goes by its name, shown or given; a leaf by its alias before its authenticator; neither when empty. */
  lemma RankMeans(e: Execution, want: FlowExecution)
    ensures want.flow.Some? ==>
              && (Rank(e, want) == 0 <==> e.isFlow && want.flow.value.alias in [e.displayName, e.alias])
              && Rank(e, want) != 1
    ensures want.flow.None? ==>
              && (Rank(e, want) == 0 <==> !e.isFlow && e.alias == want.alias != "")
              && (Rank(e, want) == 1 <==>
                    !e.isFlow && e.providerId == want.authenticator != "" && !(e.alias == want.alias != ""))
  {
  }

  /** The first unclaimed row one tier accepts. */
  function First(tier: Tier, live: seq<Execution>, want: FlowExecution, used: set<string>): Option<Execution> {
    if live == [] then None
    else if Fits(tier, live[0], want) && live[0].id !in used then Some(live[0])
    else First(tier, live[1..], want, used)
  }

  function Match(live: seq<Execution>, want: FlowExecution, used: set<string>): Option<Execution> {
    if want.flow.Some? then First(Subflow, live, want, used)
    else if First(ByAlias, live, want, used).Some? then First(ByAlias, live, want, used)
    else First(ByAuthenticator, live, want, used)
  }

  lemma {:induction false} FirstFinds(tier: Tier, live: seq<Execution>, want: FlowExecution, used: set<string>)
    ensures var r := First(tier, live, want, used);
            && (r.Some? ==> r.value in live && Fits(tier, r.value, want) && r.value.id !in used)
            && (r.None? ==> forall e :: e in live && Fits(tier, e, want) ==> e.id in used)
  {
    if live != [] {
      FirstFinds(tier, live[1..], want, used);
      assert forall e :: e in live ==> e == live[0] || e in live[1..];
    }
  }

  /**
   A match is live, compatible and unclaimed, and no unclaimed row has a smaller
   rank; none is found exactly when every compatible row is claimed.
   */
  lemma MatchFinds(live: seq<Execution>, want: FlowExecution, used: set<string>)
    ensures var r := Match(live, want, used);
            && (r.Some? ==> r.value in live && Compatible(r.value, want) && r.value.id !in used)
            && (r.Some? ==> forall e :: e in live && e.id !in used ==> Rank(r.value, want) <= Rank(e, want))
            && (r.None? <==> forall e :: e in live && Compatible(e, want) ==> e.id in used)
  {
    FirstFinds(Subflow, live, want, used);
    FirstFinds(ByAlias, live, want, used);
    FirstFinds(ByAuthenticator, live, want, used);
  }

  /** Among rows of one rank the first listed is found: `e` is not when the listing starts with one as good. */
  lemma HeadIsPreferred(live: seq<Execution>, want: FlowExecution, used: set<string>, e: Execution)
    requires live != [] && live[0].id !in used && live[0] != e && Rank(live[0], want) <= Rank(e, want) < 2
    ensures Match(live, want, used) != Some(e)
  {
    MatchFinds(live, want, used);
    FirstFinds(ByAlias, live, want, used);
    assert forall tier :: Fits(tier, live[0], want) ==> First(tier, live, want, used) == Some(live[0]);
  }

  /** What the first i searches over one listing find, each leaving out what the ones before found. */
  function Used(live: seq<Execution>, desired: seq<FlowExecution>, i: nat): set<string>
    requires i <= |desired|
  {
    if i == 0 then {}
    else
      var used := Used(live, desired, i - 1);
      var found := Match(live, desired[i - 1], used);
      if found.Some? then used + {found.value.id} else used
  }

  /** The i-th search finds an execution that already has priority i, or none. */
  ghost predicate QuietAt(live: seq<Execution>, desired: seq<FlowExecution>, i: nat)
    requires i < |desired|
  {
    var found := Match(live, desired[i], Used(live, desired, i));
    found.Some? ==> found.value.priority == i
  }

  /** Ordering the executions by this listing changes none of them. */
  ghost predicate OrderIsQuiet(live: seq<Execution>, desired: seq<FlowExecution>) {
    forall i :: 0 <= i < |desired| ==> QuietAt(live, desired, i)
  }

  /** The first i searches over this listing find nothing to renumber. */
  ghost predicate QuietUpTo(live: seq<Execution>, desired: seq<FlowExecution>, i: nat)
    requires i <= |desired|
  {
    forall k :: 0 <= k < i ==> QuietAt(live, desired, k)
  }

  lemma QuietThroughout(live: seq<Execution>, desired: seq<FlowExecution>)
    ensures QuietUpTo(live, desired, 0) && Used(live, desired, 0) == {}
    ensures QuietUpTo(live, desired, |desired|) <==> OrderIsQuiet(live, desired)
  {
  }

  // ----- the shape of the declared tree -----

  /** The aliases of every subflow declared in `want`, at any depth. */
  function Aliases(want: FlowExecution): set<string> {
    if want.flow.Some? then {want.flow.value.alias} + TreeAliases(want.flow.value.executions) else {}
  }

  function TreeAliases(desired: seq<FlowExecution>): set<string> {
    if desired == [] then {} else Aliases(desired[0]) + TreeAliases(desired[1..])
  }

  lemma {:induction false} AliasesInTree(desired: seq<FlowExecution>, i: nat)
    requires i < |desired|
    ensures Aliases(desired[i]) <= TreeAliases(desired)
  {
    if i > 0 {
      AliasesInTree(desired[1..], i - 1);
    }
  }

  /** No alias occurs twice in the tree rooted at `alias`. */
  ghost predicate UniqueAliases(alias: string, desired: seq<FlowExecution>)
    decreases desired
  {
    && alias !in TreeAliases(desired)
    && (forall i, j :: 0 <= i < j < |desired| ==> Aliases(desired[i]) !! Aliases(desired[j]))
    && (forall i :: 0 <= i < |desired| ==> desired[i].flow.Some? ==>
          UniqueAliases(desired[i].flow.value.alias, desired[i].flow.value.executions))
  }

  // ----- what becomes of a live execution -----

  /** What a new execution looks like: Keycloak labels only subflows. */
  predicate NewFor(e: Execution, want: FlowExecution) {
    if want.flow.Some?
    then e.isFlow && e.displayName == want.flow.value.alias && (e.alias == "" || e.alias == want.flow.value.alias)
    else !e.isFlow && e.providerId == want.authenticator && e.alias == "" && e.config.None?
  }

  /** `after` is `before`, possibly relabelled by writing the config of `want`. */
  predicate Kin(before: Execution, after: Execution, want: FlowExecution) {
    && after.id == before.id && after.isFlow == before.isFlow && after.providerId == before.providerId
    && after.displayName == before.displayName
    && (after.alias == before.alias
        || (want.flow.None? && want.config.Some? && after.alias == want.config.value.alias))
  }

  // ----- a tree that is not there yet -----

  /** The flow, if it exists, is empty, and none of the subflows declared below it exists. */
  ghost predicate Bare(flows: Flows, alias: string, desired: seq<FlowExecution>) {
    ExecutionsOf(flows, alias) == map[] && flows.Keys !! TreeAliases(desired)
  }

  /** Where it is told which aliases show, exactly those do. */
  predicate ShownAs(labels: Option<set<string>>, alias: string, shown: string) {
    labels.Some? ==> shown == if alias in labels.value then alias else ""
  }

  /** What a pass leaves of a new execution for `want`. */
  predicate IsNew(labels: Option<set<string>>, want: FlowExecution, e: Execution) {
    if want.flow.Some?
    then e.isFlow && e.displayName == want.flow.value.alias && ShownAs(labels, want.flow.value.alias, e.alias)
    else
      && !e.isFlow && e.providerId == want.authenticator
      && if want.config.Some? then ShownAs(labels, want.config.value.alias, e.alias) else e.alias == ""
  }

  /** The executions are new ones, one for each entry. */
  ghost predicate NewBy(es: Executions, labels: Option<set<string>>, desired: seq<FlowExecution>, claims: seq<string>) {
    && |claims| == |desired| && (forall id :: id in es ==> id in claims)
    && forall k :: 0 <= k < |claims| ==> claims[k] in es && IsNew(labels, desired[k], es[claims[k]])
  }

  /** So at every level of the tree. */
  ghost predicate AllNew(flows: Flows, labels: Option<set<string>>, alias: string, desired: seq<FlowExecution>)
    decreases desired
  {
    && alias in flows && (exists claims :: NewBy(flows[alias], labels, desired, claims))
    && forall i :: 0 <= i < |desired| && desired[i].flow.Some? ==>
         AllNew(flows, labels, desired[i].flow.value.alias, desired[i].flow.value.executions)
  }

  // ----- which executions a pass may claim -----

  /** The live executions among the first picks. */
  function Taken(picks: seq<Option<string>>): set<string> {
    set k | 0 <= k < |picks| && picks[k].Some? :: picks[k].value
  }

  /** A search for `want` may end with this pick: one of least rank, or none when none is compatible. */
  ghost predicate Pickable(es: Executions, want: FlowExecution, taken: set<string>, pick: Option<string>) {
    if pick.Some?
    then
      && pick.value in es && pick.value !in taken && Compatible(es[pick.value], want)
      && forall id :: id in es && id !in taken ==> Rank(es[pick.value], want) <= Rank(es[id], want)
    else forall id :: id in es && id !in taken ==> !Compatible(es[id], want)
  }

  /** What the searches for the first entries may pick among `es`; none where an execution has to be created. */
  ghost predicate Greedy(es: Executions, desired: seq<FlowExecution>, picks: seq<Option<string>>) {
    && |picks| <= |desired|
    && forall i :: 0 <= i < |picks| ==> Pickable(es, desired[i], Taken(picks[..i]), picks[i])
  }

  /** What the pass may make of a pick: the picked execution, or a new one, with or without the config's label. */
  ghost predicate Outcome(es: Executions, want: FlowExecution, pick: Option<string>, e: Execution) {
    exists start :: Starts(es, want, pick, start) && Kin(start, e, want)
  }

  predicate Starts(es: Executions, want: FlowExecution, pick: Option<string>, start: Execution) {
    if pick.Some? then pick.value in es && start == es[pick.value]
    else NewFor(start, want) && (want.flow.None? ==> want.authenticator != "")
  }

  /** Whatever becomes of the picks, each still stands for its entry, and better than any later one does. */
  ghost predicate Tellable(es: Executions, desired: seq<FlowExecution>, picks: seq<Option<string>>)
    requires |picks| == |desired|
  {
    && (forall i, e :: 0 <= i < |desired| && Outcome(es, desired[i], picks[i], e) ==> Compatible(e, desired[i]))
    && (forall i, j, e, f ::
          0 <= i < j < |desired| && Outcome(es, desired[i], picks[i], e) && Outcome(es, desired[j], picks[j], f) ==>
            Rank(e, desired[i]) < Rank(f, desired[i]))
  }

  function ExecutionsOf(flows: Flows, alias: string): Executions {
    if alias in flows then flows[alias] else map[]
  }

  /** Whatever the searches pick, the siblings can be told apart afterwards; so at every level. */
  ghost predicate Posed(flows: Flows, alias: string, desired: seq<FlowExecution>)
    decreases desired
  {
    && (forall picks :: |picks| == |desired| && Greedy(ExecutionsOf(flows, alias), desired, picks) ==>
          Tellable(ExecutionsOf(flows, alias), desired, picks))
    && (forall i :: 0 <= i < |desired| ==> desired[i].flow.Some? ==>
          Posed(flows, desired[i].flow.value.alias, desired[i].flow.value.executions))
  }

  /** Everything convergence asks of the declaration and the live state. */
  ghost predicate WellPosed(flows: Flows, alias: string, desired: seq<FlowExecution>) {
    UniqueAliases(alias, desired) && Posed(flows, alias, desired)
  }

  // ----- agreement -----

  /** `e` carries what `want` declares; its position among the siblings is separate. */
  ghost predicate Carries(flows: Flows, flowIds: map<string, string>, e: Execution, want: FlowExecution)
    decreases want
  {
    && (want.requirement != "" ==> e.requirement == want.requirement)
    && (if want.flow.Some?
        then
          && e.flowId != "" && e.flowId in flowIds && flowIds[e.flowId] == want.flow.value.alias
          && Converged(flows, flowIds, want.flow.value.alias, want.flow.value.executions)
        else want.config.Some? ==> e.config.Some? && Says(e.config.value, want.config.value))
  }

  /** `claims[i]` is the execution that stands for `desired[i]`. */
  ghost predicate Claims(es: Executions, desired: seq<FlowExecution>, claims: seq<string>) {
    && |claims| <= |desired| && AllDifferent(claims)
    && (forall k :: 0 <= k < |claims| ==> claims[k] in es && Compatible(es[claims[k]], desired[k]))
  }

  ghost predicate ConvergedBy(flows: Flows, flowIds: map<string, string>, alias: string,
                              desired: seq<FlowExecution>, claims: seq<string>)
    decreases desired, 0
  {
    && alias in flows
    && |claims| == |desired| && Claims(flows[alias], desired, claims)
    && (forall id :: id in flows[alias] ==> id in claims)
    && (forall k :: 0 <= k < |desired| ==>
          && flows[alias][claims[k]].priority == k
          && Carries(flows, flowIds, flows[alias][claims[k]], desired[k]))
  }

  /**
   The flow named `alias` holds exactly the declared executions, the i-th at
   priority i, and so does every subflow below it.
   */
  ghost predicate Converged(flows: Flows, flowIds: map<string, string>, alias: string, desired: seq<FlowExecution>)
    decreases desired, 1
  {
    exists claims :: ConvergedBy(flows, flowIds, alias, desired, claims)
  }

  /** Each execution stands for its entry better than any later one does. */
  ghost predicate Paired(es: Executions, desired: seq<FlowExecution>, claims: seq<string>)
    requires |claims| <= |desired|
  {
    forall i, j :: 0 <= i < j < |claims| && claims[i] in es && claims[j] in es ==>
      Rank(es[claims[i]], desired[i]) < Rank(es[claims[j]], desired[i])
  }

  /** The flow converged, and the siblings are told apart: at every level. */
  ghost predicate Calm(flows: Flows, flowIds: map<string, string>, alias: string, desired: seq<FlowExecution>)
    decreases desired, 1
  {
    exists claims :: CalmBy(flows, flowIds, alias, desired, claims)
  }

  ghost predicate CalmBy(flows: Flows, flowIds: map<string, string>, alias: string,
                         desired: seq<FlowExecution>, claims: seq<string>)
    decreases desired, 0
  {
    && ConvergedBy(flows, flowIds, alias, desired, claims) && Paired(flows[alias], desired, claims)
    && forall k :: 0 <= k < |desired| && desired[k].flow.Some? ==> CalmBelow(flows, flowIds, desired[k])
  }

  ghost predicate CalmBelow(flows: Flows, flowIds: map<string, string>, want: FlowExecution)
    decreases want
  {
    want.flow.Some? ==> Calm(flows, flowIds, want.flow.value.alias, want.flow.value.executions)
  }

  lemma CalmIsConverged(flows: Flows, flowIds: map<string, string>, alias: string, desired: seq<FlowExecution>)
    requires Calm(flows, flowIds, alias, desired)
    ensures Converged(flows, flowIds, alias, desired) && alias in flows
  {
    var claims :| CalmBy(flows, flowIds, alias, desired, claims);
  }

  /** Every flow of the tree holds as many executions as declared for it. */
  ghost predicate Counted(flows: Flows, alias: string, desired: seq<FlowExecution>)
    decreases desired
  {
    && alias in flows && |flows[alias]| == |desired|
    && (forall i :: 0 <= i < |desired| ==> desired[i].flow.Some? ==>
          Counted(flows, desired[i].flow.value.alias, desired[i].flow.value.executions))
  }

  // ----- what a pass can build -----

  /**
   With this pick the entry can be put in place: one created needs an authenticator
   or a free alias, a subflow picked points at the declared one, which exists.
   */
  ghost predicate BuildableAt(flows: Flows, flowIds: map<string, string>, es: Executions,
                              pick: Option<string>, want: FlowExecution)
    decreases want
  {
    if want.flow.None? then pick.None? ==> want.authenticator != ""
    else
      var f := want.flow.value;
      && (f.alias in flows <==> pick.Some?)
      && (pick.Some? ==>
            && pick.value in es && es[pick.value].flowId != ""
            && es[pick.value].flowId in flowIds && flowIds[es[pick.value].flowId] == f.alias)
      && Buildable(flows, flowIds, f.alias, f.executions)
  }

  /** Whatever the searches pick, every entry of the tree can be put in place. */
  ghost predicate Buildable(flows: Flows, flowIds: map<string, string>, alias: string, desired: seq<FlowExecution>)
    decreases desired
  {
    forall picks :: picks != [] && Greedy(ExecutionsOf(flows, alias), desired, picks) ==>
      var last := |picks| - 1;
      BuildableAt(flows, flowIds, ExecutionsOf(flows, alias), picks[last], desired[last])
  }

  // ----- frames -----

  /** Only flows named in `touched` differ. */
  ghost predicate SameExcept(before: Flows, after: Flows, touched: set<string>) {
    forall a :: a !in touched ==> (a in before <==> a in after) && (a in before ==> before[a] == after[a])
  }

  ghost predicate Extends(before: map<string, string>, after: map<string, string>) {
    forall i :: i in before ==> i in after && after[i] == before[i]
  }

  lemma {:induction false} ConvergedFrame(before: Flows, after: Flows,
                                          idsBefore: map<string, string>, idsAfter: map<string, string>,
                                          touched: set<string>, alias: string, desired: seq<FlowExecution>)
    requires SameExcept(before, after, touched) && Extends(idsBefore, idsAfter)
    requires touched !! {alias} + TreeAliases(desired)
    requires Converged(before, idsBefore, alias, desired)
    ensures Converged(after, idsAfter, alias, desired)
    decreases desired, 1
  {
    var claims :| ConvergedBy(before, idsBefore, alias, desired, claims);
    ConvergedByFrame(before, after, idsBefore, idsAfter, touched, alias, desired, claims);
  }

  lemma {:induction false} ConvergedByFrame(before: Flows, after: Flows,
                                            idsBefore: map<string, string>, idsAfter: map<string, string>,
                                            touched: set<string>, alias: string, desired: seq<FlowExecution>,
                                            claims: seq<string>)
    requires SameExcept(before, after, touched) && Extends(idsBefore, idsAfter)
    requires touched !! {alias} + TreeAliases(desired)
    requires ConvergedBy(before, idsBefore, alias, desired, claims)
    ensures ConvergedBy(after, idsAfter, alias, desired, claims)
    decreases desired, 0
  {
    forall k | 0 <= k < |desired|
      ensures Carries(after, idsAfter, after[alias][claims[k]], desired[k])
    {
      AliasesInTree(desired, k);
      CarriesFrame(before, after, idsBefore, idsAfter, touched, before[alias][claims[k]], desired[k]);
    }
  }

  lemma {:induction false} CarriesFrame(before: Flows, after: Flows,
                                        idsBefore: map<string, string>, idsAfter: map<string, string>,
                                        touched: set<string>, e: Execution, want: FlowExecution)
    requires SameExcept(before, after, touched) && Extends(idsBefore, idsAfter)
    requires touched !! Aliases(want)
    requires Carries(before, idsBefore, e, want)
    ensures Carries(after, idsAfter, e, want)
    decreases want
  {
    if want.flow.Some? {
      var f := want.flow.value;
      ConvergedFrame(before, after, idsBefore, idsAfter, touched, f.alias, f.executions);
    }
  }

  lemma {:induction false} CalmFrame(before: Flows, after: Flows,
                                     idsBefore: map<string, string>, idsAfter: map<string, string>,
                                     touched: set<string>, alias: string, desired: seq<FlowExecution>)
    requires SameExcept(before, after, touched) && Extends(idsBefore, idsAfter)
    requires touched !! {alias} + TreeAliases(desired)
    requires Calm(before, idsBefore, alias, desired)
    ensures Calm(after, idsAfter, alias, desired)
    decreases desired
  {
    var claims :| CalmBy(before, idsBefore, alias, desired, claims);
    ConvergedByFrame(before, after, idsBefore, idsAfter, touched, alias, desired, claims);
    forall k | 0 <= k < |desired| && desired[k].flow.Some?
      ensures CalmBelow(after, idsAfter, desired[k])
    {
      AliasesInTree(desired, k);
      assert CalmBelow(before, idsBefore, desired[k]);
      var f := desired[k].flow.value;
      CalmFrame(before, after, idsBefore, idsAfter, touched, f.alias, f.executions);
    }
    assert CalmBy(after, idsAfter, alias, desired, claims);
  }

  lemma {:induction false} PosedFrame(before: Flows, after: Flows, touched: set<string>,
                                      alias: string, desired: seq<FlowExecution>)
    requires SameExcept(before, after, touched)
    requires touched !! TreeAliases(desired) && ExecutionsOf(after, alias) == ExecutionsOf(before, alias)
    requires Posed(before, alias, desired)
    ensures Posed(after, alias, desired)
    decreases desired
  {
    forall i | 0 <= i < |desired| && desired[i].flow.Some?
      ensures Posed(after, desired[i].flow.value.alias, desired[i].flow.value.executions)
    {
      AliasesInTree(desired, i);
      PosedFrame(before, after, touched, desired[i].flow.value.alias, desired[i].flow.value.executions);
    }
  }

  lemma {:induction false} AllNewFrame(before: Flows, after: Flows, labels: Option<set<string>>, touched: set<string>,
                                       alias: string, desired: seq<FlowExecution>)
    requires SameExcept(before, after, touched)
    requires touched !! {alias} + TreeAliases(desired)
    requires AllNew(before, labels, alias, desired)
    ensures AllNew(after, labels, alias, desired)
    decreases desired
  {
    forall i | 0 <= i < |desired| && desired[i].flow.Some?
      ensures AllNew(after, labels, desired[i].flow.value.alias, desired[i].flow.value.executions)
    {
      AliasesInTree(desired, i);
      AllNewFrame(before, after, labels, touched, desired[i].flow.value.alias, desired[i].flow.value.executions);
    }
  }

  lemma {:induction false} CountedFrame(before: Flows, after: Flows, touched: set<string>,
                                        alias: string, desired: seq<FlowExecution>)
    requires SameExcept(before, after, touched)
    requires touched !! {alias} + TreeAliases(desired)
    requires Counted(before, alias, desired)
    ensures Counted(after, alias, desired)
    decreases desired
  {
    forall i | 0 <= i < |desired| && desired[i].flow.Some?
      ensures Counted(after, desired[i].flow.value.alias, desired[i].flow.value.executions)
    {
      AliasesInTree(desired, i);
      CountedFrame(before, after, touched, desired[i].flow.value.alias, desired[i].flow.value.executions);
    }
  }

  lemma {:induction false} BuildableFrame(before: Flows, after: Flows,
                                          idsBefore: map<string, string>, idsAfter: map<string, string>,
                                          touched: set<string>, alias: string, desired: seq<FlowExecution>)
    requires SameExcept(before, after, touched) && Extends(idsBefore, idsAfter)
    requires touched !! TreeAliases(desired) && ExecutionsOf(after, alias) == ExecutionsOf(before, alias)
    requires Buildable(before, idsBefore, alias, desired)
    ensures Buildable(after, idsAfter, alias, desired)
    decreases desired
  {
    var es := ExecutionsOf(before, alias);
    forall picks | picks != [] && Greedy(es, desired, picks)
      ensures var last := |picks| - 1; BuildableAt(after, idsAfter, es, picks[last], desired[last])
    {
      var last := |picks| - 1;
      AliasesInTree(desired, last);
      BuildableAtFrame(before, after, idsBefore, idsAfter, touched, es, picks[last], desired[last]);
    }
  }

  lemma {:induction false} BuildableAtFrame(before: Flows, after: Flows,
                                            idsBefore: map<string, string>, idsAfter: map<string, string>,
                                            touched: set<string>, es: Executions,
                                            pick: Option<string>, want: FlowExecution)
    requires SameExcept(before, after, touched) && Extends(idsBefore, idsAfter)
    requires touched !! Aliases(want) && BuildableAt(before, idsBefore, es, pick, want)
    ensures BuildableAt(after, idsAfter, es, pick, want)
    decreases want
  {
    if want.flow.Some? {
      var f := want.flow.value;
      BuildableFrame(before, after, idsBefore, idsAfter, touched, f.alias, f.executions);
    }
  }
}
