# Verification of the NetEye operator's reconciliation logic

The NetEye operator keeps remote state equal to what is declared: authentication
flows, clients and accounts in Keycloak, objects and a lease in Kubernetes, and the
operator's own catalog of releases. This project models the parts of it whose
correctness is not settled by reading one body, and proves what they are for.

Remote stores are classes whose methods stand for the requests of the API. A request
may fail, before or after it took effect, and the store may add data of its own where
the real one does; each store counts the write requests it receives, so "nothing to
do" is a statement about requests, not only about states. A store, or the random source,
may also be declared reliable or quiet: then no request fails for reasons of its own and
nobody else interferes, and the same methods are shown to succeed exactly when they
can. Random choices, the order in which Go visits a map, the clock and what other
writers do in between are arbitrary.
Integers are unbounded unless a width matters. Code that changes state step by step is
modelled as methods over such state, proved against predicates and functions on values,
and the properties over whole runs are methods or lemmas about sequences of steps.

## What is proved

**Authentication flows** (`AuthFlowModel`, `AuthFlowStore`, `AuthFlowLemmas`,
`AuthFlowConditions`, `AuthFlowSync`, `AuthFlowRoot`). The recursive reconciliation of
a declared tree of executions: greedy matching with claims, creation, deletion of what
nobody claimed, subflows, configs, and priorities. On a well-posed input, stated of the
declaration and the live state before the pass, one error-free pass leaves at every
level exactly the declared executions, the i-th at priority i with its requirement and
config, and from then on no number of passes sends a write. When no request fails, a
pass over a tree that can be built is free of errors, which holds for a tree none of
whose flows exists yet and for one that is calm already. For any declaration with
unique flow aliases, repeated entries included, an error-free pass leaves exactly as
many executions as declared.

A search prefers an alias to an authenticator, and among equals what is listed first.
So a converged flow is left alone whatever order it is listed in if and only if each
execution stands for its entry better than every later one does: leaves of one
authenticator told apart by their aliases qualify, twins without aliases never do. A
converged tree is calm, that is told apart so at every level, if and only if the
ordering leaves every level alone for every listing. A tree none of whose flows exists
yet is well posed if and only if no search for an entry accepts what is created for a
later sibling; where one does, there are labels Keycloak may show under which no
error-free pass ends calm.

**Lifecycle graph** (`LifecycleOrder`, `LifecycleGraph`, `LifecycleRun`). A graph is
accepted exactly when identifiers are non-empty and distinct, dependencies known and
not repeated, and there is no cycle; the order is the lexicographically least
topological one, strings compared at their first differing character, whatever order
the maps are visited in. A run calls exactly the
eligible components, each once, blocks every transitive dependant of one that is not
ready, and every blocked component has a transitive dependency that ran and was not
ready.

**Catalog** (`Text`, `SemVer`, `CatalogChannel`, `CatalogBundles`, `CatalogRelease`,
`CatalogNightly`, `CatalogState`, `CatalogCommands`). The version comparison is the
precedence of section 11 of Semantic Versioning 2.0.0, a strict total order on accepted
versions, and which strings are accepted is proved from their form. Reading a written
channel gives it back. A release or bugfix release that is added is recorded with its
image and, when the channels are read back, on top of exactly the channels it concerns;
every other channel and image stays, and the default channel follows the NetEye version.
Every command moves the files as a function on values says, and over every run of releases, backports and nightly updates
from an empty catalog, accepted or not, every channel has distinct names, one head and
a recorded bundle for each entry; a release channel moreover is a single upgrade path
with strictly growing versions; and a recorded image never changes between any two
points of the run. A nightly update leaves one head, which replaces the one before it and
skips all earlier ones, and repeating it changes no file.

**Passwords** (`PasswordShuffle`, `PasswordGeneration`, `PasswordPolicy`). The shuffle
keeps the characters, and for distinct elements the ways of picking and the
permutations correspond one to one. A generated password has 32 characters, or more if
the policy needs more, but never more than it allows; it meets the policy exactly when
the policy's own lengths do not contradict each other, and generation fails only for
a policy whose classes exceed its maximum, or with the random source. A policy written
out is read back unchanged.

**Merging and granting** (`Merge`, `UserStore`, `UserSync`, `ClientStore`,
`ClientSync`). Merging reports no drift exactly when the declaration is contained in
the live object, keeps whatever the declaration leaves alone, and is idempotent. After a
successful pass a client and an account show each declared field under its key, the
secret of a confidential client included, and what the declaration does not decide is
kept, settings of mappers included. Roles,
groups, scopes and mappers are only added, whatever fails; a successful pass leaves
everything declared in place, for a client when mapper names differ and no scope is
declared with both kinds. A successful pass over a client writes nothing if and only if
everything declared was there, and from then on no number of passes changes anything;
two declarations of one mapper name with different settings make every successful pass
write. A successful pass over an account writes nothing if and only if everything
declared was there, no rotation is asked for, and every group is declared the way
Keycloak lists it: a path written without its leading slash is found, but never
recognised as already joined, so the account is added to that group on every pass.

**Credential rotation** (`CredentialRotation`). The account, the Secret and the status
can each fail in the middle of a pass. Under a fixed declaration every run of passes
failing anywhere leaves the Secret in agreement with the account, unless there is no
account or a rotation is due, if and only if that holds at first and an account still
to be created with a generated password finds a value in the Secret or a rotation due.
While tokens change the same holds if and only if no token that may be recorded is asked
for again, or dropped, after a different one was asked for, and either things are
settled at first or every token asks for the rotation. The password of an existing
account changes only when a declared token differs from the recorded one. A pass that runs to its end
leaves agreement exactly when the account was absent, or rotated, or agreed before. Two
examples show what goes wrong otherwise: a first creation that fails before the Secret
is written, and a rotation token taken back.

**Admin clients** (`AdminProvider`). A handed-out client is always built from a
credential in a Secret right now; the internal account's, and any tenant's, only if
Keycloak accepted it for that very client; after a rejected probe a provider waits a
minute, and no longer, before the next; a provider never serves two namespaces. All of this holds over
any run of requests while Secrets change in between. The bootstrap account
must not share the internal account's name; an example shows why.

**Applying objects** (`Ownership`, `Apply`, `ApplyInterleaving`). However others
interfere between calls, an owner's write only replaces the spec of an object that
owner controls. For every interleaving of any number of owners, from any object and any
stage of their calls, a calling client changes an existing object only if its owner
controls it. Undisturbed, applying again reports no change exactly when the first
application was accepted and the owner, if any, was given as controller or controls the
object already.

**Cluster authority** (`ClusterAuthority`). For any number of NetEye resources, every
interleaving of their checks, stale reads and lost replies included, the lease names
one holder for good while nobody deletes it, and only that holder ever passes; and no
update of the lease is lost, nor does one drop a reference of another name.

## Where the code and its comments differ

The comment on `ReconcileClient` (src/internal/keycloak/clientsync.go:36-38) says that
extra mappers and scopes are removed. The code never removes any, and the test at
src/internal/keycloak/clientsync_test.go:131-149 expects them to stay; the model follows
the code.

## Model

| member | source | states |
|---|---|---|
| `AuthFlowModel.MatchFinds` | src/internal/keycloak/authflowsync.go:286-307 | A match is live, compatible and unclaimed, and no unclaimed execution is accepted by an earlier tier; none is found exactly when every compatible execution is claimed |
| `AuthFlowModel.HeadIsPreferred` | src/internal/keycloak/authflowsync.go:286-307 | Among executions of one tier only the first listed is found |
| `AuthFlowModel.SaidIsDetermined` | src/internal/keycloak/authflowsync.go:322-350 | What a declared config says leaves no choice of what to store |
| `AuthFlowLemmas.MatchIsPickable` | src/internal/keycloak/authflowsync.go:197 | A search over the current listing ends with an unclaimed execution of least rank, or with none exactly when none is compatible, whatever the earlier steps of the pass changed |
| `AuthFlowConditions.PairedExactly` | src/internal/keycloak/authflowsync.go:286-307 | With the executions in place every search finds its own entry's, for every listing of the flow, if and only if each has a smaller rank for its entry than any later one |
| `AuthFlowConditions.OrderIsQuietExactly` | src/internal/keycloak/authflowsync.go:367-395 | A converged flow is left alone by the ordering, for every listing of it, if and only if its executions are told apart in that way |
| `AuthFlowConditions.CalmExactly` | src/internal/keycloak/authflowsync.go:367-395 | A converged tree is calm if and only if the ordering leaves every level of it alone, for every listing |
| `AuthFlowConditions.TwinsAreNeverPaired` | src/internal/keycloak/authflowsync.go:300-305 | Two leaves of one authenticator without aliases are never told apart |
| `AuthFlowConditions.LabelsArePaired` | src/internal/keycloak/authflowsync.go:295-299 | Leaves that carry distinct aliases are told apart, even with one authenticator |
| `AuthFlowConditions.SeparateIsPosed` | src/internal/keycloak/authflowsync.go:286-307 | Well-posedness from a condition on each pair of siblings and each live execution: at every level none suits two siblings, now or once labelled |
| `AuthFlowConditions.LabelledIsPosed` | src/internal/keycloak/authflowsync.go:295-299 | Before the pass already: siblings whose aliases differ and are found on live executions are well posed |
| `AuthFlowSync.MatchingExecution` | src/internal/keycloak/authflowsync.go:286-307 | The three searches find what the specification of matching says |
| `AuthFlowSync.ClaimExecution` | src/internal/keycloak/authflowsync.go:196-227 | Creates an execution exactly when nothing is left to claim, re-lists, and reports a creation exactly when something was sent; touches no other flow |
| `AuthFlowSync.ReconcileAuthenticatorConfig` | src/internal/keycloak/authflowsync.go:322-350 | Afterwards the stored config has the declared alias, a key exactly for each declared value that is not empty, and that value; changes at most that execution's config and label, sends nothing when it says so already |
| `AuthFlowSync.SettleRequirement` | src/internal/keycloak/authflowsync.go:228-233 | Leaves the declared requirement, possibly with another priority; sends nothing when it is there or none is declared |
| `AuthFlowSync.ReconcileSubflow` | src/internal/keycloak/authflowsync.go:236-253 | The subflow the execution points at is the declared one and ends calm; one that is calm already is not written to; without request failures only a wrong link or something that cannot be built stops it |
| `AuthFlowSync.SettleExecution` | src/internal/keycloak/authflowsync.go:228-260 | Requirement, config and, recursively, the subflow of one claimed execution end as declared, nothing is sent when they are already; other flows and siblings stay |
| `AuthFlowSync.DeleteUnclaimed` | src/internal/keycloak/authflowsync.go:262-273 | Deletes exactly the executions nobody claimed |
| `AuthFlowSync.SortByIndex` | src/internal/keycloak/authflowsync.go:373 | The listing in order of the reported index, nothing lost |
| `AuthFlowSync.SortedListing` | src/internal/keycloak/authflowsync.go:367-373 | The sorted listing still lists each execution once |
| `AuthFlowSync.ReconcileExecutionOrder` | src/internal/keycloak/authflowsync.go:367-395 | Where the executions are told apart the i-th ends at priority i and nothing else changes; in any flow something is sent exactly when a search over the listing finds an execution of another priority |
| `AuthFlowSync.ClaimNext` | src/internal/keycloak/authflowsync.go:197-227 | The execution claimed for the next entry is a possible outcome of the search, found or newly created; a calm flow yields the same execution as before, and without request failures what can be built is claimed |
| `AuthFlowSync.ReconcileExecution` | src/internal/keycloak/authflowsync.go:196-261 | One turn of the loop: claims an execution nobody claimed and settles it, keeping the earlier ones settled and the later ones buildable |
| `AuthFlowSync.ReconcileEach` | src/internal/keycloak/authflowsync.go:194-261 | The whole loop: every entry claims an execution of its own, all end settled, and a calm flow is not written to |
| `AuthFlowSync.ReconcileFlowExecutions` | src/internal/keycloak/authflowsync.go:189-280 | On a well-posed input the tree ends calm: converged, with its siblings told apart, at every level; a calm tree is not written to; flows outside the tree stay, exactly as many executions as declared at every level, all new where there was no tree; free of errors when no request fails and the tree can be built |
| `AuthFlowRoot.EnsureRootFlow` | src/internal/keycloak/authflowsync.go:175-187 | The root flow exists afterwards; an existing one is left alone |
| `AuthFlowRoot.Overlay` | src/internal/keycloak/authflowsync.go:127-131 | The update keeps every realm field it does not override |
| `AuthFlowRoot.FindDrift` | src/internal/keycloak/authflowsync.go:113-123 | Exactly the recognised bindings that do not point at the flow |
| `AuthFlowRoot.RealmFieldMeans` | src/internal/keycloak/authflowsync.go:88-97 | Six purposes are known, each recorded in the realm field named after it |
| `AuthFlowRoot.ReconcileBindings` | src/internal/keycloak/authflowsync.go:102-136 | Every recognised binding points at the flow, no other realm field changes, nothing is sent when they do already |
| `AuthFlowRoot.ReconcileFlow` | src/internal/keycloak/authflowsync.go:72-86 | Convergence, frame, quiescence and reporting of a whole pass |
| `AuthFlowRoot.ReconcileFlowAgain` | src/internal/keycloak/authflowsync.go:72-136 | Once the tree is calm and the bindings are in place, as an error-free pass on a well-posed input leaves them, no number of later passes changes anything or reports a change, whatever of them fails |
| `AuthFlowConditions.NothingThere` | src/internal/keycloak/authflowsync.go:196-225 | A tree none of whose flows exists yet can be built, and is well posed if and only if no search for an entry accepts what is created for a later sibling |
| `AuthFlowConditions.NewAreTold` | src/internal/keycloak/authflowsync.go:286-307 | Two created siblings are told apart in whatever form they end if and only if no search for the first accepts the second |
| `AuthFlowConditions.MisledIsNeverCalm` | src/internal/keycloak/authflowsync.go:282-307 | Where siblings clash under the aliases that Keycloak shows, a tree of new executions is not calm, whichever stands for which entry and whatever their order |
| `AuthFlowConditions.UnapartMisleads` | src/internal/keycloak/authflowsync.go:282-307 | Whenever a search for an entry may accept what is created for a later sibling, at any level, there are such aliases to show |
| `AuthFlowRoot.BuildFromNothing` | src/internal/keycloak/authflowsync.go:72-86 | Where none of its flows exists yet and no request fails, one pass builds the declared tree and binds it, and no later pass changes anything |
| `AuthFlowRoot.BuildMisled` | src/internal/keycloak/authflowsync.go:72-86 | The converse: where siblings are not apart and such aliases show, every pass over the absent tree ends without an error and none ends calm |
| `AuthFlowConditions.CalmIsBuildable` | src/internal/keycloak/authflowsync.go:236-247 | A calm tree can be built again, so nothing but a failing request stops a later pass |
| `AuthFlowSync.CreationIsPossible` | src/internal/keycloak/authflowsync.go:197-222 | When nothing is left to claim for an entry that can be built, its execution can be created |
| `AuthFlowLemmas.CreatedIsFound` | src/internal/keycloak/authflowsync.go:204-225 | The search after a creation finds the created execution |
| `AuthFlowLemmas.AddedIsFound` | src/internal/keycloak/authflowsync.go:204-225 | A created execution is found by the second search |
| `AuthFlowLemmas.StepKeepsBuildable` | src/internal/keycloak/authflowsync.go:196-261 | Creating or settling an execution for one sibling leaves the later ones buildable |
| `AuthFlowLemmas.StepExtendsUnderway` | src/internal/keycloak/authflowsync.go:226-260 | Claiming and settling one execution keeps the earlier ones in place and adds it |
| `AuthFlowLemmas.AllInPlace` | src/internal/keycloak/authflowsync.go:266-273 | Once the unclaimed are deleted exactly the claimed are left, each standing for its entry better than any later one |
| `AuthFlowLemmas.OrderedIsCalm` | src/internal/keycloak/authflowsync.go:274-279 | Claimed, settled and numbered executions, and no others, make the flow calm |
| `AuthFlowModel.ConvergedFrame` | src/internal/keycloak/authflowsync.go:248-253 | Convergence of a tree is unaffected by changes to flows outside it |
| `AuthFlowModel.CalmFrame` | src/internal/keycloak/authflowsync.go:248-253 | So is its calm |
| `AuthFlowStore.Keycloak.CreateSubflow` | src/internal/keycloak/admin.go:356-358 | The store adds one new subflow execution with an empty flow, or nothing |
| `AuthFlowStore.Keycloak.CreateExecution` | src/internal/keycloak/admin.go:373-375 | The store adds one new leaf execution of the provider, or nothing |
| `AuthFlowStore.Keycloak.UpdateExecutionRequirement` | src/internal/keycloak/admin.go:376-379 | The store changes the requirement and may reset the priority |
| `AuthFlowStore.Keycloak.UpdateExecution` | src/internal/keycloak/admin.go:382-384 | The store sets the priority that was sent |
| `AuthFlowStore.Keycloak.DeleteExecution` | src/internal/keycloak/admin.go:402-404 | The store removes that execution and no other |
| `AuthFlowStore.Keycloak.ListDirectExecutions` | src/internal/keycloak/admin.go:359-372 | Lists each execution of the flow once, in any order |
| `LifecycleOrder.GreedyIsTopological` | src/controllers/component_reconciliation.go:148-159 | Taking the least ready component each time gives a topological order |
| `LifecycleOrder.GreedyIsLeast` | src/controllers/component_reconciliation.go:148-159 | Every other topological order is lexicographically greater |
| `LifecycleOrder.GreedyIsLeastTopological` | src/controllers/component_reconciliation.go:133-164 | A complete greedy order is the least topological order |
| `LifecycleOrder.GreedyIsUnique` | src/controllers/component_reconciliation.go:133-164 | There is only one such order, so the iteration order of maps does not matter |
| `Ordering.LessMeans` | src/controllers/component_reconciliation.go:149 | The comparison of strings decides by prefix, or by the smaller character where the two first differ |
| `Ordering.SmallerTotal` | src/controllers/component_reconciliation.go:149 | Of two strings one is smaller or they are equal, and only one of these holds |
| `Ordering.Sort` | hack/update_catalog.py:251-254 | The names in ascending order, nothing lost |
| `LifecycleOrder.TopologicalHasNoCycle` | src/controllers/component_reconciliation.go:160-162 | A graph with a topological order has no cycle |
| `LifecycleOrder.StuckHasCycle` | src/controllers/component_reconciliation.go:160-162 | When nothing is ready and components are left, there is a cycle among them |
| `LifecycleGraph.Graph.CountDependencies` | src/controllers/component_reconciliation.go:134-141 | Counts of missing dependencies, and the dependants of every component, for any iteration order |
| `LifecycleGraph.Graph.InitiallyReady` | src/controllers/component_reconciliation.go:142-147 | Exactly the components without dependencies |
| `LifecycleGraph.Graph.Release` | src/controllers/component_reconciliation.go:153-158 | Placing a component updates the counts and makes ready exactly those that lack nothing more |
| `LifecycleGraph.Graph.SetOrder` | src/controllers/component_reconciliation.go:133-164 | The order is greedy, complete exactly when it succeeds; failure exhibits a cycle |
| `LifecycleGraph.CollectNodes` | src/controllers/component_reconciliation.go:104-114 | The nodes by identifier, refused exactly for an empty or repeated one |
| `LifecycleGraph.CheckDependencies` | src/controllers/component_reconciliation.go:115-126 | Refused exactly when a dependency is unknown or repeated |
| `LifecycleGraph.NewLifecycleGraph` | src/controllers/component_reconciliation.go:103-131 | Succeeds exactly when the list is accepted, with the least topological order, identifiers compared at their first differing character; a cycle error means there is one |
| `LifecycleRun.ValidateOperationResult` | src/controllers/component_reconciliation.go:249-289 | Accepts exactly the results that meet the contract |
| `LifecycleRun.BlockingHolds` | src/controllers/component_reconciliation.go:199-207 | Blocking lists exactly the dependencies that are not ready, each once |
| `LifecycleRun.BlockingInOrder` | src/controllers/component_reconciliation.go:199-207 | They come in the order of declaration |
| `LifecycleRun.ComponentIdsMessage` | src/controllers/component_reconciliation.go:291-300 | The loop writes the specified message |
| `LifecycleRun.IdsMessageJoins` | src/controllers/component_reconciliation.go:291-300 | Which is the identifiers with a comma and a space between any two |
| `LifecycleRun.RunOne` | src/controllers/component_reconciliation.go:227-245 | One component is called when nothing blocks it, else gets a blocked result that passes validation |
| `LifecycleRun.RunComponentOperations` | src/controllers/component_reconciliation.go:216-247 | On success every component has a valid, explained result and the calls are exactly the eligible components; each is called at most once; failures have a cause |
| `LifecycleRun.DependantsAreBlocked` | src/controllers/component_reconciliation.go:227-236 | Every transitive dependant of a component that is not ready is blocked |
| `LifecycleRun.BlockedHasRootCause` | src/controllers/component_reconciliation.go:227-236 | Every blocked result built by the runner has a transitive dependency that was called and returned not ready |
| `LifecycleRun.AggregateComponentPhase` | src/controllers/neteye_controller.go:312-326 | Failed exactly with a degraded component, not ready exactly with a progressing or blocked one and none degraded |
| `LifecycleRun.EarliestComponentRequeue` | src/controllers/neteye_controller.go:328-336 | The least positive delay, zero when there is none |
| `SemVer.CompareFollowsPrecedence` | hack/update_catalog.py:36-77 | On accepted versions the comparison is the precedence of section 11 of Semantic Versioning 2.0.0, numbers and characters compared at the first difference, and zero only for equal strings |
| `SemVer.AcceptedVersions` | hack/update_catalog.py:14-45 | Accepted are exactly three numerals without leading zeros, then optionally a hyphen and identifiers of letters, digits and hyphens, those of digits again without leading zeros, all joined by dots |
| `SemVer.FormIsAccepted` | hack/update_catalog.py:36-61 | A version of that form is read as the numbers and identifiers it was written from |
| `SemVer.CoreLessMeans` | hack/update_catalog.py:53-56 | Number triples are compared at their first difference |
| `SemVer.CompareAntisymmetric` | hack/update_catalog.py:48-77 | Swapping the sides negates the result |
| `SemVer.CompareTransitive` | hack/update_catalog.py:48-77 | The comparison is transitive |
| `SemVer.IdentifiersFollowPrecedence` | hack/update_catalog.py:60-77 | Pre-release identifiers compare as section 11.4 says |
| `SemVer.PrecedesTransitive` | hack/update_catalog.py:48-77 | Precedence itself is transitive |
| `SemVer.ParseIdentifierInjective` | hack/update_catalog.py:41-45 | Without leading zeros equal values mean equal identifiers |
| `SemVer.LeadingZerosBreakTheOrder` | hack/update_catalog.py:41-45 | With leading zeros two identifiers would each come before the other |
| `Text.ToNatInjective` | hack/update_catalog.py:14-19 | Numerals without leading zeros are equal when their numbers are |
| `CatalogChannel.Parse` | hack/update_catalog.py:157-174 | The loop over lines reads what the specification of reading says, errors included |
| `CatalogChannel.Render` | hack/update_catalog.py:176-190 | The loop over entries writes the specified text |
| `CatalogChannel.ParseRendered` | hack/update_catalog.py:157-190 | Reading a written channel gives it back, for names without white space |
| `CatalogChannel.OnlyHeadIsHead` | hack/update_catalog.py:192-208 | The one entry no other replaces or skips is what the head search returns |
| `CatalogChannel.HeadMeans` | hack/update_catalog.py:192-208 | For any channel a head is found exactly when one position alone is not superseded, and it is the entry there; an empty channel has none |
| `CatalogChannel.WrittenHeader` | hack/update_catalog.py:176-190 | A written channel starts with its schema, package and name, and heads its lists of skipped entries |
| `CatalogChannel.SkipRangeIsRefused` | hack/update_catalog.py:159-163 | A channel with a range of skipped versions is refused |
| `CatalogBundles.BundleSays` | hack/update_catalog.py:103-121 | The schema, name, package and image written into a bundle document are the ones read from it |
| `CatalogBundles.BundleProperties` | hack/update_catalog.py:103-121 | The document lists the kind of object the operator deploys by and the version of the package |
| `CatalogBundles.IsNightlyMeans` | hack/update_catalog.py:27 | A version is nightly exactly when it ends in the nightly mark and 7 to 40 hexadecimal digits |
| `CatalogBundles.NightlyRoundTrip` | hack/update_catalog.py:271-276 | The shared nightly file is split into the documents it was joined from |
| `CatalogBundles.BundleIsClean` | hack/update_catalog.py:313-319 | No bundle document contains the separator of the shared file |
| `Text.SplitJoinWith` | hack/update_catalog.py:276-317 | Pieces that contain no separator, even followed by one, are split exactly where they were joined |
| `CatalogRelease.PromotedKeepsPath` | hack/update_catalog.py:358-372 | A release put on top of a single upgrade path, or on an empty channel, leaves a single upgrade path |
| `CatalogRelease.BackportedKeepsPath` | hack/update_catalog.py:404-427 | So does a bugfix release |
| `CatalogRelease.PromotedExactlyWhenNewer` | hack/update_catalog.py:358-368 | A sound channel accepts exactly the releases newer than its newest entry; the duplicate check adds nothing |
| `CatalogRelease.PromotedExactly` | hack/update_catalog.py:358-372 | For any channel: a release is taken exactly when the entries are other accepted versions and the channel is empty or has one head, which is older; it goes on top, replacing that head |
| `CatalogRelease.ReleaseMinorMeans` | hack/update_catalog.py:380-383 | The texts of two minor lines are equal exactly when the major and the minor numbers are |
| `CatalogRelease.ValidEntryNameMeans` | hack/update_catalog.py:210-220 | An entry name is accepted exactly when it is the package name, a dot and an accepted version |
| `CatalogRelease.BackportedExactly` | hack/update_catalog.py:402-416 | For any channel: a backport leaves it alone exactly when it is empty or has one head with another major or minor number, goes on top exactly when the one head has the same numbers and is older, and is refused otherwise |
| `CatalogRelease.BackportIsNoDuplicate` | hack/update_catalog.py:404-427 | The duplicate check a backport does not make cannot fail: strict growth implies it |
| `CatalogRelease.VersionsGrow` | hack/update_catalog.py:363-372 | Versions grow along the whole path, not only from entry to entry |
| `CatalogRelease.NamesDiffer` | hack/update_catalog.py:359-360 | No name occurs twice on an upgrade path |
| `CatalogRelease.NewestIsOnlyHead` | hack/update_catalog.py:192-208 | The newest entry of a path is its only head |
| `CatalogRelease.AReleasePath` | hack/update_catalog.py:370-373 | An example of such a path: one release |
| `CatalogRelease.PathMeetsAll` | hack/update_catalog.py:370-372 | Following the replaces edges from the head meets every entry, newest first |
| `CatalogCommands.Catalog.SetDefaultChannel` | hack/update_catalog.py:238-249 | Succeeds exactly with one default channel, and replaces it |
| `CatalogCommands.Catalog.WriteBundle` | hack/update_catalog.py:313-319 | The bundle is recorded where the specification of the files says |
| `CatalogState.BundleRecorded` | hack/update_catalog.py:291-319 | A recorded image becomes readable under its version and every other recorded image stays, whatever the shared file of nightly bundles held |
| `CatalogBundles.AddedDocumentSays` | hack/update_catalog.py:271-276 | Rewriting any shared file with one more document keeps under each name the images that were there |
| `CatalogBundles.SplitAdded` | hack/update_catalog.py:276-317 | Adding a document to any text adds it to the documents read, except that a text may end in most of a separator |
| `CatalogCommands.Catalog.CheckRelease` | hack/update_catalog.py:341-368 | A release is planned exactly when it is accepted, and recognised exactly when it is recorded with this image |
| `CatalogState.ReleaseAcceptedExactly` | hack/update_catalog.py:335-372 | A release is accepted exactly when version and image are well formed, the package file is there, no bundle has the version, and the channel named by the NetEye version or the kind of version can take it |
| `CatalogState.ReleaseLeaves` | hack/update_catalog.py:370-377 | What an accepted release leaves: recorded, on top of its channel, and the default channel following a NetEye version |
| `CatalogState.BackportAcceptedExactly` | hack/update_catalog.py:386-422 | A bugfix release is accepted exactly when it is new, every channel can be read and is empty, on another line or older, and one is on its line |
| `CatalogState.BackportLeaves` | hack/update_catalog.py:424-428 | What an accepted bugfix release leaves: recorded, and on top of exactly the channels on its line |
| `CatalogState.NightlyLeaves` | hack/update_catalog.py:457-477 | What a nightly update leaves: the channel rewritten with the build on top, and the build recorded unless a bundle was there |
| `CatalogState.PinnedImageMeans` | hack/update_catalog.py:20-22 | A release image is the repository with a SHA-256 digest of 64 hexadecimal digits |
| `CatalogState.NightlyImageMeans` | hack/update_catalog.py:23-26 | A nightly image is the repository with a tag of an accepted version, the nightly mark and a hash |
| `CatalogState.WrittenFileEnds` | hack/update_catalog.py:313-319 | Recording a bundle writes the file of that bundle alone |
| `CatalogCommands.Catalog.UpdateCatalog` | hack/update_catalog.py:335-377 | Exactly when a release is accepted, current, refused or left without default channel. A release that is added is recorded with its image, is on top of its channel when that is read back, and leaves every other channel and image as it was; the default channel becomes that of the NetEye version, if one is given, and stays otherwise; a refused or current one changes nothing |
| `CatalogCommands.Catalog.CheckBackport` | hack/update_catalog.py:389-422 | A backport is planned exactly when it is accepted, and recognised exactly when it is recorded with this image |
| `CatalogCommands.Catalog.MatchChannels` | hack/update_catalog.py:402-416 | Exactly the channels whose head is on the same minor line, with their new texts |
| `CatalogCommands.Catalog.UpdateCatalogBackport` | hack/update_catalog.py:386-428 | Exactly when a bugfix release is accepted or current. One that is added is recorded with its image and is on top of exactly the channels whose one head has its major and minor number, at least one; every other channel and image stays; otherwise nothing changes |
| `CatalogState.ReleaseKeepsSound` | hack/update_catalog.py:335-377 | A release, accepted or not, keeps every channel sound and every recorded image |
| `CatalogState.BackportKeepsSound` | hack/update_catalog.py:386-428 | So does a backport, nightly channels included |
| `CatalogState.NightlyKeepsSound` | hack/update_catalog.py:431-477 | So does a nightly update, even one that fails after it wrote the channel |
| `CatalogState.OnTopIsOneHeaded` | hack/update_catalog.py:421-427 | A new entry that replaces the head becomes the only head |
| `CatalogState.RunKeepsSound` | hack/update_catalog.py:335-477 | Over any run of the three commands, between any two points of it, channels stay sound and recorded images stay |
| `CatalogCommands.RunCommands` | hack/update_catalog.py:335-477 | The commands executed one after the other on an empty catalog leave the files of the run as a function, hence sound ones |
| `CatalogState.SoundChannelHasOneHead` | hack/update_catalog.py:192-208 | What soundness means for any channel: the file reads back with distinct names, the last entry as its only head, and a recorded bundle for every entry |
| `CatalogState.SoundChannelIsOnePath` | hack/update_catalog.py:192-208 | What it means for a release channel besides: growing versions and one path of replaces edges through all entries |
| `CatalogNightly.RewriteHasOneHead` | hack/update_catalog.py:462-469 | The rewritten nightly channel has one head, the new build; the other entries are those of before, in order and without edges, of which the head replaces the last and skips all earlier ones |
| `CatalogNightly.RewriteIsIdempotent` | hack/update_catalog.py:462-469 | Rewriting for the same build again changes nothing |
| `CatalogNightly.RewriteIsClean` | hack/update_catalog.py:462-469 | The rewritten channel can be written and read back |
| `CatalogState.NightlyTextHasOneHead` | hack/update_catalog.py:431-470 | For any channel that can be read, the text a nightly update writes reads back as that: the names of before in order, then the new build as only head, replacing the one before it and skipping all earlier ones |
| `CatalogCommands.Catalog.UpdateNightlyChannel` | hack/update_catalog.py:431-477 | Exactly when it succeeds and whether it reports a change. A build whose channel can be read goes on top of that channel alone and is recorded when it was not, even if the bundles cannot be read afterwards; otherwise nothing changes |
| `CatalogState.NightlyIsIdempotent` | hack/update_catalog.py:431-477 | Updating again for the same build changes no file, and is accepted when it was before |
| `CatalogCommands.RerunNightly` | hack/update_catalog.py:431-477 | After an accepted update no number of reruns for the same build changes a file, and each reports no change |
| `PasswordShuffle.Shuffle` | src/internal/keycloak/passwordpolicy.go:201-211 | The array ends as shuffled by the picks drawn, all of them on success |
| `PasswordShuffle.ShuffledKeepsElements` | src/internal/keycloak/passwordpolicy.go:200-211 | The shuffle permutes the characters |
| `PasswordShuffle.PicksAreDetermined` | src/internal/keycloak/passwordpolicy.go:200-211 | Equal outcomes of distinct elements had equal picks |
| `PasswordShuffle.PermutationHasPicks` | src/internal/keycloak/passwordpolicy.go:200-211 | Every permutation comes from some picks |
| `PasswordShuffle.PicksArePermutations` | src/internal/keycloak/passwordpolicy.go:200-211 | Every permutation of distinct elements comes from exactly one way of picking |
| `PasswordGeneration.PlaceClass` | src/internal/keycloak/passwordpolicy.go:158-164 | Adds the minimum of one class, offered characters only |
| `PasswordGeneration.PlaceRequired` | src/internal/keycloak/passwordpolicy.go:151-165 | Places every minimum, whatever order the classes are visited in |
| `PasswordGeneration.MoveLetterFirst` | src/internal/keycloak/passwordpolicy.go:215-223 | Swaps the first letter to the front, fails exactly when there is none |
| `PasswordGeneration.CountPermuted` | src/internal/keycloak/passwordpolicy.go:182-187 | Shuffling and swapping do not change how many characters of a class there are |
| `PasswordGeneration.ClassCharacters` | src/internal/keycloak/passwordpolicy.go:24-33 | Which characters each class has |
| `PasswordGeneration.FillerIsOffered` | src/internal/keycloak/passwordpolicy.go:166-173 | The filler draws from exactly the characters offered: letters, digits, and special ones only when the policy asks for some |
| `PasswordGeneration.GeneratePassword` | src/internal/keycloak/passwordpolicy.go:137-189 | The length is 32, or more if the policy needs more, but never more than it allows; the first character is a letter; it satisfies the policy exactly when the policy's lengths are consistent; it fails exactly for classes that exceed the maximum, or with the random source |
| `PasswordPolicy.ParsePasswordPolicy` | src/internal/keycloak/passwordpolicy.go:64-97 | Each field is the setting of the last rule that has one |
| `PasswordPolicy.UnmodelledRuleIsIgnored` | src/internal/keycloak/passwordpolicy.go:60-96 | A rule the operator does not model changes nothing, wherever it stands |
| `PasswordPolicy.RuleIsRead` | src/internal/keycloak/passwordpolicy.go:99-107 | A rule is split into its name and its argument |
| `PasswordPolicy.SpaceAroundIsIgnored` | src/internal/keycloak/passwordpolicy.go:67 | White space around a rule makes no difference |
| `PasswordPolicy.RuleWithoutArgument` | src/internal/keycloak/passwordpolicy.go:99-107 | A rule without an argument sets nothing |
| `PasswordPolicy.AtoiMeans` | src/internal/keycloak/passwordpolicy.go:77-80 | Digits with or without a sign are read as the number they write, if it fits 64 bits |
| `PasswordPolicy.AtoiRefuses` | src/internal/keycloak/passwordpolicy.go:77-80 | Nothing else is a number |
| `PasswordPolicy.WrittenPolicyIsRead` | src/internal/keycloak/passwordpolicy.go:60-107 | A policy written out as rules is read back unchanged |
| `Merge.MergeChangesNothingIff` | src/internal/keycloak/clientsync.go:57-58 | Merging changes nothing exactly when the declaration is contained in the live object |
| `Merge.MergeContainsDesired` | src/internal/keycloak/clientsync.go:158-173 | The result contains the declaration |
| `Merge.MergeIdempotent` | src/internal/keycloak/clientsync.go:153-173 | Merging again changes nothing |
| `Merge.MergeKeepsTheRest` | src/internal/keycloak/clientsync.go:149-173 | Whatever the declaration leaves alone stays, present or absent, at any depth |
| `Merge.MergeSetsValues` | src/internal/keycloak/clientsync.go:163-171 | A declared value that is no object is found in the result at its path |
| `Merge.KeptMergeIsSettled` | src/internal/keycloak/clientsync.go:153-157 | A server that keeps what it was sent, and may add fields, shows no drift next time |
| `Merge.MergedFieldsKept` | src/internal/keycloak/clientsync.go:149-173 | A server that keeps what it was sent keeps every live field that is not declared, one level down too |
| `Merge.WithinFields` | src/internal/keycloak/clientsync.go:115-147 | An object set field by field is contained in another exactly when each field that is set is |
| `UserStore.GroupPathIsCanonical` | src/internal/keycloak/adminusers.go:107-121 | The path a group is listed under is a fixed point of the way paths are resolved |
| `UserStore.GroupPathMeans` | src/internal/keycloak/adminusers.go:107-121 | That path is one slash and what any way of writing it is without the slashes around it |
| `UserStore.Account.CreateUser` | src/internal/keycloak/adminusers.go:33-48 | The account is created with its password, or not at all; failure may come after the effect |
| `UserStore.Account.GetGroupByPath` | src/internal/keycloak/adminusers.go:107-121 | A group is found under any way of writing its path, and listed under one |
| `UserStore.Account.ResetUserPassword` | src/internal/keycloak/adminusers.go:64-68 | The password is set, or the request failed before that |
| `UserSync.EnsureUser` | src/internal/keycloak/usersync.go:53-89 | Creates the account or brings declared fields back; keeps the others; sends nothing when they are there |
| `UserSync.DesiredUserMeans` | src/internal/keycloak/usersync.go:144-160 | What is sent for an account asks for exactly the declared fields |
| `UserSync.UserRestKept` | src/internal/keycloak/usersync.go:144-160 | An account that keeps what was sent has lost no field the declaration does not decide |
| `UserSync.ReconcileRealmRoles` | src/internal/keycloak/usersync.go:162-196 | Roles never shrink, declared ones are there on success, nothing is sent when they are already |
| `UserSync.ReconcileUserGroups` | src/internal/keycloak/usersync.go:198-227 | Groups never shrink, declared ones are there on success, and it writes exactly when a path is not listed as declared |
| `UserSync.ReconcileUser` | src/internal/keycloak/usersync.go:49-112 | Grants only; after success every declared field is at the account, first and last name, address and enablement each under its key, and whatever happens the fields the declaration does not decide stay; when the password changes, exactly when a successful pass writes nothing, and that only a missing role or group stops it when no request fails |
| `UserSync.ReconcileUserAgain` | src/internal/keycloak/usersync.go:49-112 | Once everything declared is there no number of later passes changes anything, when groups are declared as listed and no rotation is asked for; otherwise every successful pass writes |
| `UserSync.SlashlessGroupIsNotCanonical` | src/internal/keycloak/usersync.go:208-224 | An example of a declaration that is written again on every pass |
| `ClientStore.Client.AddClientScope` | src/internal/keycloak/admin.go:330-334 | The scope is assigned with that kind, perhaps taken from the other, or the request failed before that |
| `ClientStore.Client.UpdateProtocolMapper` | src/internal/keycloak/admin.go:294-299 | The mapper keeps all it was sent, perhaps with more; the others stay |
| `ClientSync.ReconcileProtocolMappers` | src/internal/keycloak/clientsync.go:188-226 | Mappers keep place and name, undeclared ones their content, and declared ones the settings the declaration does not mention; declared ones are applied on success; quiet when they are already |
| `ClientSync.IndexByName` | src/internal/keycloak/clientsync.go:196-199 | The last mapper of each name |
| `ClientSync.ReconcileClientScopes` | src/internal/keycloak/clientsync.go:245-276 | Scopes of a kind never shrink, declared ones are there on success; the other kind loses only what moved; quiet when they are there already |
| `ClientSync.MissingRoles` | src/internal/keycloak/clientsync.go:341-354 | Exactly the declared roles not granted yet, all of which exist |
| `ClientSync.GrantRoles` | src/internal/keycloak/clientsync.go:327-360 | Roles of one owner are only added, one request when some are missing |
| `ClientSync.ReconcileServiceAccountRoles` | src/internal/keycloak/clientsync.go:308-366 | Roles never shrink, declared ones are granted on success in any order of owners; refused when the service account is disabled |
| `ClientSync.EnsureClient` | src/internal/keycloak/clientsync.go:43-64 | Creates the client or brings declared fields back; keeps the others; sends nothing when they are there |
| `ClientSync.DesiredClientMeans` | src/internal/keycloak/clientsync.go:115-147 | What is sent for a client asks for exactly what is declared: each switch with its default, texts, lists and attributes where they are declared, and a secret exactly for a confidential client that has one |
| `ClientSync.ClientRestKept` | src/internal/keycloak/clientsync.go:149-173 | A client that keeps what was sent has lost no field or attribute the declaration does not decide |
| `ClientSync.DesiredMapperMeans` | src/internal/keycloak/clientsync.go:228-243 | What is sent for a mapper asks for exactly its name, protocol, kind and settings |
| `ClientSync.UpdateKeepsRest` | src/internal/keycloak/clientsync.go:212-219 | An updated mapper has lost no setting the declaration does not mention |
| `ClientSync.ReconcileParts` | src/internal/keycloak/clientsync.go:66-83 | Roles, mappers and scopes are only added and all there on success; a successful pass writes nothing exactly when they were all there |
| `ClientSync.ReconcileClient` | src/internal/keycloak/clientsync.go:39-86 | Grants only; after success every declared field is at the client, the secret of a confidential client and the defaults of switches included, and whatever happens the fields and attributes the declaration does not decide stay; what a pass reports, quiet exactly when everything was there, and stopped only by something undefined when no request fails |
| `ClientSync.ReconcileClientAgain` | src/internal/keycloak/clientsync.go:39-86 | Once everything declared is there no number of later passes changes anything, whatever becomes of them; with contradictory mappers every successful pass writes |
| `ClientSync.ConflictingMappersNeverSettle` | src/internal/keycloak/clientsync.go:202-220 | Two declarations of one mapper name with different settings never both hold, in any list of mappers |
| `ClientSync.MapperUpdated` | src/internal/keycloak/clientsync.go:212-219 | Updating the last mapper of a name applies it and disturbs no other |
| `CredentialRotation.AgreementIsKeptExactly` | src/controllers/keycloakuser_controller.go:81-133 | For a fixed declaration, exactly from which stores every run of passes failing anywhere keeps agreement, unless there is no account or a rotation is due |
| `CredentialRotation.ChangingTokensExactly` | src/controllers/keycloakuser_controller.go:176-178 | The same for declarations whose tokens change from pass to pass: exactly the sequences of tokens, and the stores, for which no run goes wrong |
| `CredentialRotation.FreshTokensAreKept` | src/controllers/keycloakuser_controller.go:176-178 | Tokens that change only to one never used before are among them |
| `CredentialRotation.CompletePassAgreesExactly` | src/controllers/keycloakuser_controller.go:103-133 | A pass that ran to its end leaves agreement exactly when the account was absent, or rotated, or agreed before |
| `CredentialRotation.StoredIsAccepted` | src/controllers/keycloakuser_controller.go:108-127 | The Secret changes only to a generated value that is the account's password by then |
| `CredentialRotation.ForgottenPasswordStays` | src/controllers/keycloakuser_controller.go:113-114 | An existing account whose password is not in the Secret stays so until a rotation |
| `CredentialRotation.FailedFirstCreation` | src/controllers/keycloakuser_controller.go:88-127 | An example: a first creation that fails before the Secret is written loses agreement |
| `CredentialRotation.WithdrawnRotation` | src/controllers/keycloakuser_controller.go:176-197 | An example: a token taken back after the reset loses agreement |
| `CredentialRotation.Controller.ResolveCredential` | src/controllers/keycloakuser_controller.go:170-210 | Which password is applied, when one is generated, and when it rotates |
| `CredentialRotation.Controller.StorePassword` | src/controllers/keycloakuser_controller.go:230-246 | The Secret gets the value, or the write failed before it |
| `CredentialRotation.Controller.Reconcile` | src/controllers/keycloakuser_controller.go:81-133 | Every pass, wherever it fails, is a pass of the three-store model. The password of an existing account changes only when a declared token differs from the recorded one; the Secret only to the account's new password; the token only to the declared one, at the end. A pass that reaches Ready leaves everything declared, and the Secret in agreement with an account it created or rotated; without failures a pass that can get a password reaches Ready and records the token |
| `CredentialRotation.ReconcileRepeatedly` | src/controllers/keycloakuser_controller.go:41-134 | Any number of passes of the controller are a run of the three-store model, and under the exact condition end in agreement unless a rotation is still due |
| `AdminProvider.Provider.Get` | src/internal/keycloak/adminprovider.go:69-106 | The client is of a current credential; an internal or tenant one was accepted for this client; the internal account is used unless just rejected or throttled; a fitting held client is reused; the throttle is kept |
| `AdminProvider.Provider.GetBootstrap` | src/internal/keycloak/adminprovider.go:88-105 | The held client if it fits, else a new one, which for a tenant is held only if Keycloak accepted it |
| `AdminProvider.Provider.VerifyInternal` | src/internal/keycloak/adminprovider.go:111-127 | Rejections are a minute apart, no probe before the time set, which is a minute after the last rejection, and an accepted client becomes the held one |
| `AdminProvider.BootstrapUnderInternalName` | src/internal/keycloak/adminprovider.go:88-105 | An example, which happens: a bootstrap account of the internal account's name is handed out without having been accepted |
| `AdminProvider.Registry.For` | src/internal/keycloak/adminprovider.go:184-200 | The namespace's own provider: the one in use, or a new one after it was forgotten or idle for more than half an hour; others stay unless idle |
| `AdminProvider.Registry.EvictIdle` | src/internal/keycloak/adminprovider.go:209-222 | Removes exactly the providers idle for too long |
| `AdminProvider.ClientFor` | src/internal/keycloak/adminprovider.go:69-222 | Through the registry a namespace gets a client of its own current credential, accepted where that is promised |
| `AdminProvider.Serve` | src/internal/keycloak/adminprovider.go:69-222 | Over any run of requests and changing Secrets each use of a namespace, in order, gets a client of a credential in a Secret at that moment, accepted where that is promised; no provider serves two namespaces |
| `AdminProvider.ServeOne` | src/internal/keycloak/adminprovider.go:69-222 | One use of a namespace is answered from the Secrets of that moment, and what was served before stays vouched for |
| `Ownership.RequireManagedOwner` | src/internal/resources/ownership.go:52-62 | Accepts exactly the objects whose first controller is the owner |
| `Ownership.SetOwnerReference` | src/internal/resources/ownership.go:33-47 | Fails exactly with another controller before any reference of the owner; adds the owner only when it is not mentioned and nobody controls the object |
| `Ownership.ManagedNeedsNoAttaching` | src/internal/resources/ownership.go:33-62 | After the first check succeeded attaching the owner changes nothing and cannot fail |
| `Ownership.NewOwnerManagesIffController` | src/internal/resources/ownership.go:52-62 | A newly attached owner manages the object exactly when given as controller |
| `Apply.RespectfulMeans` | src/internal/resources/apply.go:70-104 | What a respectful write is: its owner controls the object it replaces, whose spec alone changes, to the declared one |
| `Apply.ReconcileOnce` | src/internal/resources/apply.go:70-104 | One attempt: writes only respectful changes under any interference; undisturbed, what was there tells the outcome |
| `Apply.ReconcileExisting` | src/internal/resources/apply.go:68-106 | The same with retries on conflicts, four attempts in all |
| `Apply.CreateObject` | src/internal/resources/apply.go:108-132 | Creates the labelled object with its owner, or reconciles after a lost race |
| `Apply.ApplyObject` | src/internal/resources/apply.go:53-132 | However others interfere, writes replace only the spec of an object the owner controls; undisturbed, the exact outcome |
| `Apply.AppliedIsSettled` | src/internal/resources/apply.go:53-132 | What an undisturbed application leaves calls for nothing more exactly when it was accepted and the owner is controller or controlled the object already |
| `Apply.ApplyAgain` | src/internal/resources/apply.go:53-132 | Undisturbed, no number of further applications changes or writes anything, and each reports no change, or the refusal |
| `Apply.Server.Update` | src/internal/resources/apply.go:99-101 | An update is accepted only for the version that was read |
| `ApplyInterleaving.StepRespectsOwners` | src/internal/resources/apply.go:70-104 | A call changes an existing object only if the caller's owner controls it, and keeps its references |
| `ApplyInterleaving.NoForeignOverwrite` | src/internal/resources/apply.go:53-132 | The same for every step of every interleaving from any object and stage; an object created on the way, or with one owner at first, always says what a client of its one owner declared |
| `ClusterAuthority.AtMostOneAuthority` | src/controllers/neteye_controller.go:541-578 | For every interleaving the lease's holder never changes and at most one UID passes |
| `ClusterAuthority.RunHasOneHolder` | src/controllers/neteye_controller.go:541-578 | Lease, copies and passes name one holder throughout a run |
| `ClusterAuthority.StepKeepsHolder` | src/controllers/neteye_controller.go:564-576 | No step changes the holder of an existing lease |
| `ClusterAuthority.FirstStep` | src/controllers/neteye_controller.go:548-563 | Whoever creates the lease becomes its holder |
| `ClusterAuthority.NoUpdateIsLost` | src/controllers/neteye_controller.go:569-576 | For every interleaving each version of the lease is the one before it with the holder's controlling reference put in, and no update is made from an older version |
| `ClusterAuthority.WithControllerIsPutIn` | src/controllers/neteye_controller.go:569-572 | The reference stands in the place of the first one of the owner's name, or at the end; the others stay |
| `ClusterAuthority.EnsureClusterAuthority` | src/controllers/neteye_controller.go:541-578 | The check passes only for the holder and never changes the holder of a lease that is there; undisturbed it passes exactly when the lease is available, says which of the two refusals it is otherwise, and a passed lease is new or keeps every reference but one of the owner's own name |
| `ClusterAuthority.WithControllerControls` | src/controllers/neteye_controller.go:569-572 | Putting the controlling reference in the place of one of the same name, or adding it, makes the NetEye control an object that no one of another name controls |

## Left out

- HTTP, JSON decoding, tokens on the wire, client libraries, logging, leader election and start-up: plumbing over libraries that are not part of this model.
- Static resource builders, API types, webhook field checks and default values: no property that spans operations.
- `hack/update_neteye_support.py` and the lookup of the newest NetEye version: text substitution and a network call.
- Authentication flows: the provider of a flow, the conversion of the three declared levels into one tree, and the deletion of a flow. The declared tree may be of any depth.
- `AuthFlowStore.Keycloak.DeleteExecution`: Keycloak deletes a nested flow together with its execution; in the model the nested flow stays behind without one. That flows outside the tree stay untouched is therefore not claimed for flows nested below an execution that is deleted.
- Authentication flows: a config is part of its execution; configs shared between executions are not modelled. Writing a config may give the execution the config's alias as its label, which is why well-posedness asks that siblings can be told apart with either label.
- `AuthFlowSync.ReconcileFlowExecutions`: well-posedness asks that siblings can be told apart whatever the searches may pick and whichever label Keycloak reports afterwards; that an input which is not well posed can go wrong is proved for trees that do not exist yet (`AuthFlowRoot.BuildMisled`).
- `LifecycleRun.RunComponentOperations`: an operation is what it returns; its own side effects are not part of the model, and error values are reduced to their presence.
- The catalog on disk: a file write is one step, so nothing is said about a crash between the channel and the bundle. Which pre-release file names a file system would merge is not modelled either.
- Catalog patterns: a version that ends in a newline, which Python's end-of-text anchor also accepts, does not reach these functions and is not modelled; a carriage return followed by a newline counts as two line breaks, which adds an empty line no pattern matches.
- `CatalogState.NightlyIsIdempotent`: asks for a NetEye version without line breaks, as the channel name is written on a line of its own; the same holds for the version given to a release, and for `CatalogState.RunKeepsSound`.
- `CatalogCommands.Catalog.UpdateCatalog`: a channel whose name or package holds a line break is written all the same, and nothing is said about reading it back; which error a refused command names is not specified.
- `PasswordGeneration.GeneratePassword`: the policy's numbers are not negative, as the parser never yields negative ones; sums do not overflow.
- `PasswordShuffle.PicksArePermutations`: says which picks lead where, not how likely the random source is to draw them.
- Regular expression rules of a password policy are read and kept; a generated password is not checked against them, as in the code.
- Keycloak identifiers of clients, mappers, accounts and roles: a store holds one client or one account, and a mapper is addressed by its place in the list.
- `Merge.KeptMergeIsSettled`: a server that changes what it was sent, as Keycloak does with upper-case user names, keeps showing drift; quiet passes are proved for servers that keep it.
- `ClientSync.ReconcileClient`: the server may move a scope from one kind to the other when it is assigned again; a server that ignores such a request instead is not modelled.
- `CredentialRotation.Controller.Reconcile`: the finalizer, the deletion path, the recorded user ID and adoption, and stale reads from the informer cache are left out; the realm policy is arbitrary.
- `AdminProvider.Provider.Get`: the throttle holds for each provider; a namespace that was forgotten or idle gets a new provider, which probes at once. The lock around each call is what lets a call be one step.
- `Apply.ApplyObject`: the server stores the spec as sent; one that fills in defaults would be updated on every pass. Errors of setting a nested field are not modelled.
- `ClusterAuthority.EnsureClusterAuthority`: the name of a reference stands for its group, kind and name; that an API server refuses an object with two controlling references is not modelled.
- `ClusterAuthority.AtMostOneAuthority`: says nothing across a deletion of the lease, after which another resource may take over.
- Merge associativity does not hold when a value that is no object lies between two objects, and is not claimed.
