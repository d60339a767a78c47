/** Making a Keycloak account match its declaration: declared fields are set, roles and groups only granted. */
module UserSync {
  import opened Wrappers
  import opened Merge
  import opened UserStore

  /** An empty password leaves the account's alone. */
  datatype Credential = Credential(password: string, temporary: bool, rotate: bool)

  datatype UserSpec = UserSpec(username: string, enabled: Option<bool>, email: string, emailVerified: bool,
                               firstName: string, lastName: string,
                               realmRoles: Option<seq<string>>, groups: Option<seq<string>>)

  datatype UserResult = UserResult(created: bool, adopted: bool, updated: bool, passwordSet: bool)

  datatype SyncError = RequestFailed | MissingRole | MissingGroup

  /** The fields of a declared account in the order they are set; none where the declaration says nothing. */
  function UserFields(spec: UserSpec): seq<(string, Option<Json>)> {
    [("username", Some(Text(spec.username))),
     ("enabled", Some(Bool(if spec.enabled.Some? then spec.enabled.value else true))),
     ("email", IfSet(spec.email)),
     ("emailVerified", if spec.email != "" then Some(Bool(spec.emailVerified)) else None),
     ("firstName", IfSet(spec.firstName)),
     ("lastName", IfSet(spec.lastName))]
  }

  function DesiredUser(spec: UserSpec): (r: Json)
    ensures r.Object?
  {
    Object(FieldsOf(UserFields(spec)))
  }

  /**
   The account is as declared: enabled unless it is declared not to be, and with every name
   and address that is not empty; an address comes with whether it is verified.
   */
  ghost predicate UserAsDeclared(live: Json, spec: UserSpec)
    requires live.Object?
  {
    && Holds(live, "username", Text(spec.username)) && Holds(live, "enabled", Bool(spec.enabled != Some(false)))
    && (spec.email != "" ==> Holds(live, "email", Text(spec.email)))
    && (spec.email != "" ==> Holds(live, "emailVerified", Bool(spec.emailVerified)))
    && (spec.firstName != "" ==> Holds(live, "firstName", Text(spec.firstName)))
    && (spec.lastName != "" ==> Holds(live, "lastName", Text(spec.lastName)))
  }

  ghost predicate Holds(live: Json, key: string, value: Json)
    requires live.Object?
  {
    key in live.fields && live.fields[key] == value
  }

  /** The keys whose value the declaration decides. */
  ghost predicate Decides(spec: UserSpec, key: string) {
    || key == "username" || key == "enabled" || (spec.email != "" && (key == "email" || key == "emailVerified"))
    || (key == "firstName" && spec.firstName != "") || (key == "lastName" && spec.lastName != "")
  }

  /** All fields the declaration does not decide are still there. */
  ghost predicate RestKept(before: Json, after: Json, spec: UserSpec)
    requires before.Object? && after.Object?
  {
    forall key :: key in before.fields && !Decides(spec, key) ==> FieldKept(before, after, key)
  }

  lemma UserKeysDiffer(spec: UserSpec)
    ensures |UserFields(spec)| == 6 && KeysDiffer(UserFields(spec))
  {
    var fields := UserFields(spec);
    assert |fields[0].0| == 8 && |fields[1].0| == 7 && |fields[2].0| == 5 && |fields[3].0| == 13;
    assert |fields[4].0| == 9 && fields[4].0[0] == 'f' && |fields[5].0| == 8 && fields[5].0[0] == 'l';
    assert fields[0].0[0] == 'u';
  }

  lemma UserFieldsMean(live: Json, spec: UserSpec)
    requires live.Object?
    ensures (forall i :: 0 <= i < |UserFields(spec)| ==> FieldShown(live, UserFields(spec)[i])) <==>
              UserAsDeclared(live, spec)
  {
    var fields := UserFields(spec);
    assert fields == [fields[0], fields[1], fields[2], fields[3], fields[4], fields[5]];
  }

  /** What is sent for an account asks for exactly what is declared. */
  lemma DesiredUserMeans(live: Json, spec: UserSpec)
    requires live.Object?
    ensures Within(DesiredUser(spec), live) <==> UserAsDeclared(live, spec)
  {
    hide Within, UserFields, UserAsDeclared;
    UserKeysDiffer(spec);
    WithinFields(UserFields(spec), live);
    UserFieldsMean(live, spec);
  }

  /** An account that keeps the merged fields has lost none that the declaration leaves open. */
  lemma UserRestKept(before: Json, after: Json, spec: UserSpec)
    requires before.Object? && after.Object? && Within(Merged(before, DesiredUser(spec)), after)
    ensures RestKept(before, after, spec)
  {
    hide Within, Merged, FieldKept, FieldsOf;
    UserKeysDiffer(spec);
    FieldsAre(UserFields(spec));
    MergedFieldsKept(before, DesiredUser(spec), after);
  }

  function Declared(list: Option<seq<string>>): seq<string> { if list.Some? then list.value else [] }

  /** Everything declared is there. */
  ghost predicate Applied(account: Account, spec: UserSpec)
    requires account.Valid()
    reads account
  {
    && account.live.Some? && UserAsDeclared(account.live.value, spec)
    && Names(Declared(spec.realmRoles)) <= account.roles
    && GroupPaths(Declared(spec.groups)) <= account.groups
  }

  /** The realm has every declared role and group. */
  predicate AllDefined(account: Account, spec: UserSpec) {
    Names(Declared(spec.realmRoles)) <= account.realmRoles && GroupPaths(Declared(spec.groups)) <= account.realmGroups
  }

  /** Every group is declared the way Keycloak lists it. */
  predicate CanonicalGroups(spec: UserSpec) {
    forall g :: g in Declared(spec.groups) ==> GroupPath(g) == g
  }

  /** Adds the declared roles the account lacks, in one request. */
  method ReconcileRealmRoles(account: Account, declared: Option<seq<string>>) returns (r: Result<bool, SyncError>)
    requires account.Valid() && account.live.Some?
    modifies account`roles, account`writes
    ensures account.Valid() && old(account.roles) <= account.roles && account.writes >= old(account.writes)
    ensures r.Success? ==> Names(Declared(declared)) <= account.roles
    ensures r.Success? ==> (r.value <==> account.writes > old(account.writes))
    ensures Names(Declared(declared)) <= old(account.roles) ==>
              account.roles == old(account.roles) && account.writes == old(account.writes)
    ensures r.Success? && account.writes == old(account.writes) ==> Names(Declared(declared)) <= old(account.roles)
    ensures account.reliable ==>
              && (r.Failure? <==> !(Names(Declared(declared)) <= old(account.roles) + account.realmRoles))
              && (r.Failure? ==> r.error.MissingRole?)
  {
    if declared.None? {
      return Success(false);
    }
    var ok, listed := account.ListUserRealmRoles();
    if !ok {
      return Failure(RequestFailed);
    }
    var missing: seq<string> := [];
    for i := 0 to |declared.value|
      invariant Names(declared.value[..i]) <= listed + Names(missing)
      invariant Names(missing) !! listed && Names(missing) <= Names(declared.value)
      invariant account.reliable ==> Names(declared.value[..i]) <= listed + account.realmRoles
      invariant account.Valid() && listed == account.roles == old(account.roles)
                && account.writes == old(account.writes)
    {
      var name := declared.value[i];
      assert declared.value[..i + 1] == declared.value[..i] + [name];
      if name in listed {
        continue;
      }
      var found;
      ok, found := account.GetRealmRole(name);
      if !ok {
        return Failure(RequestFailed);
      }
      assert name in Names(declared.value);
      if !found {
        return Failure(MissingRole);
      }
      assert Names(missing + [name]) == Names(missing) + {name};
      missing := missing + [name];
    }
    assert declared.value[..|declared.value|] == declared.value;
    if |missing| > 0 {
      assert missing[0] in Names(missing);
      ok := account.AddUserRealmRoles(missing);
      if !ok {
        return Failure(RequestFailed);
      }
      return Success(true);
    }
    return Success(false);
  }

  /** Adds the account to each declared group it is not listed in under that very path. */
  method ReconcileUserGroups(account: Account, declared: Option<seq<string>>) returns (r: Result<bool, SyncError>)
    requires account.Valid() && account.live.Some?
    modifies account`groups, account`writes
    ensures account.Valid() && old(account.groups) <= account.groups && account.writes >= old(account.writes)
    ensures r.Success? ==> GroupPaths(Declared(declared)) <= account.groups
    ensures r.Success? ==> (r.value <==> account.writes > old(account.writes))
    ensures r.Success? ==> (r.value <==> !(Names(Declared(declared)) <= old(account.groups)))
    ensures Names(Declared(declared)) <= old(account.groups) ==>
              account.groups == old(account.groups) && account.writes == old(account.writes)
    ensures account.reliable && GroupPaths(Declared(declared)) <= account.realmGroups ==> r.Success?
    ensures account.reliable && r.Failure? ==>
              r.error.MissingGroup? && !(GroupPaths(Declared(declared)) <= account.realmGroups)
  {
    if declared.None? {
      return Success(false);
    }
    var ok, listed := account.ListUserGroups();
    if !ok {
      return Failure(RequestFailed);
    }
    var changed := false;
    for i := 0 to |declared.value|
      invariant account.Valid() && listed == old(account.groups) <= account.groups
      invariant GroupPaths(declared.value[..i]) <= account.groups
      invariant account.writes >= old(account.writes) && (changed <==> account.writes > old(account.writes))
      invariant changed <==> !(Names(declared.value[..i]) <= listed)
      invariant !changed ==> account.groups == listed
    {
      var path := declared.value[i];
      assert declared.value[..i + 1] == declared.value[..i] + [path];
      assert Names(declared.value[..i + 1]) == Names(declared.value[..i]) + {path} <= Names(declared.value);
      assert GroupPaths(declared.value[..i + 1]) == GroupPaths(declared.value[..i]) + {GroupPath(path)};
      if path in listed {
        continue;
      }
      assert path in Names(declared.value[..i + 1]) && path in Names(declared.value);
      assert GroupPath(path) in GroupPaths(declared.value);
      var group;
      ok, group := account.GetGroupByPath(path);
      if !ok {
        return Failure(RequestFailed);
      }
      if group.None? {
        return Failure(MissingGroup);
      }
      GroupPathIsCanonical(path);
      ok := account.AddUserToGroup(group.value);
      if !ok {
        return Failure(RequestFailed);
      }
      changed := true;
    }
    assert declared.value[..|declared.value|] == declared.value;
    return Success(changed);
  }

  /** Creates the account, or brings the declared fields of an existing one back. */
  method EnsureUser(account: Account, desired: Json, credential: Credential) returns (r: Result<UserResult, SyncError>)
    requires account.Valid() && desired.Object?
    modifies account
    ensures account.Valid() && old(account.roles) <= account.roles && old(account.groups) <= account.groups
    ensures account.writes >= old(account.writes)
    ensures r.Success? ==>
              && account.live.Some? && Within(desired, account.live.value)
              && (r.value.created <==> old(account.live).None?) && (r.value.adopted <==> !r.value.created)
              && (r.value.passwordSet <==> r.value.created && credential.password != "")
              && (r.value.created || r.value.updated <==> account.writes > old(account.writes))
    ensures old(account.live).Some? ==>
              && account.live.Some? && account.password == old(account.password)
              && account.roles == old(account.roles) && account.groups == old(account.groups)
              && (account.live == old(account.live)
                  || Within(Merged(old(account.live).value, desired), account.live.value))
              && (Within(desired, old(account.live).value) ==> unchanged(account))
    ensures r.Success? && account.writes == old(account.writes) ==>
              old(account.live).Some? && Within(desired, old(account.live).value)
    ensures old(account.live).None? && account.live.Some? ==>
              account.password == if credential.password != "" then Some(credential.password) else None
    ensures account.reliable ==> r.Success?
    ensures r.Failure? ==> r.error.RequestFailed?
  {
    var ok, live := account.GetUser();
    if !ok {
      return Failure(RequestFailed);
    }
    if live.None? {
      ok := account.CreateUser(desired, if credential.password != "" then Some(credential.password) else None);
      if !ok {
        return Failure(RequestFailed);
      }
      return Success(UserResult(true, false, false, credential.password != ""));
    }
    var merged := Merged(live.value, desired);
    MergeChangesNothingIff(live.value, desired);
    if merged != live.value {
      ok := account.UpdateUser(merged);
      if !ok {
        return Failure(RequestFailed);
      }
      KeptMergeIsSettled(live.value, desired, account.live.value);
      return Success(UserResult(false, true, true, false));
    }
    return Success(UserResult(false, true, false, false));
  }

  /**
   Makes the account match the declaration. Whatever fails on the way, roles and
   groups never shrink, fields the declaration does not mention stay, and the
   password changes only when the account is created or a rotation is asked for. A
   successful pass writes nothing exactly when the account already matched, no rotation
   was asked for, and every group is declared the way Keycloak lists it. When no request
   fails, a pass fails only for a role or group the realm does not have.
   */
  method ReconcileUser(account: Account, spec: UserSpec, credential: Credential)
    returns (r: Result<UserResult, SyncError>)
    requires account.Valid()
    modifies account
    ensures account.Valid() && old(account.roles) <= account.roles && old(account.groups) <= account.groups
    ensures account.writes >= old(account.writes)
    ensures old(account.live).Some? ==>
              && account.live.Some?
              && (account.live == old(account.live)
                  || (&& Within(Merged(old(account.live).value, DesiredUser(spec)), account.live.value)
                      && UserAsDeclared(account.live.value, spec)
                      && RestKept(old(account.live).value, account.live.value, spec)))
    // what a successful pass leaves and reports
    ensures r.Success? ==>
              && Applied(account, spec)
              && (r.value.created <==> old(account.live).None?) && (r.value.adopted <==> !r.value.created)
              && (r.value.created || r.value.updated || r.value.passwordSet <==> account.writes > old(account.writes))
              && (r.value.passwordSet <==> credential.password != "" && (r.value.created || credential.rotate))
    ensures r.Success? && r.value.passwordSet ==> account.password == Some(credential.password)
    // the password
    ensures old(account.live).None? && account.live.Some? ==>
              account.password == if credential.password != "" then Some(credential.password) else None
    ensures old(account.live).Some? && account.password != old(account.password) ==>
              credential.rotate && credential.password != "" && account.password == Some(credential.password)
    // quiet passes, and the paths that keep a pass from being quiet
    ensures old(Applied(account, spec)) && CanonicalGroups(spec)
            && !(credential.rotate && credential.password != "") ==>
              unchanged(account)
    ensures r.Success? ==>
              (account.writes == old(account.writes) <==>
                 && old(Applied(account, spec)) && CanonicalGroups(spec)
                 && !(credential.rotate && credential.password != ""))
    // progress
    ensures account.reliable && AllDefined(account, spec) ==> r.Success?
    ensures account.reliable && r.Failure? ==> !r.error.RequestFailed?
  {
    hide DesiredUser, Within, Names, GroupPaths, UserAsDeclared, RestKept;
    var desired := DesiredUser(spec);
    if account.live.Some? { DesiredUserMeans(account.live.value, spec); }
    var first := EnsureUser(account, desired, credential);
    if account.live.Some? { DesiredUserMeans(account.live.value, spec); }
    if old(account.live).Some? && account.live != old(account.live) {
      KeptMergeIsSettled(old(account.live).value, desired, account.live.value);
      UserRestKept(old(account.live).value, account.live.value, spec);
    }
    if first.Failure? {
      return Failure(first.error);
    }
    var result := first.value;
    if credential.password != "" && credential.rotate && !result.created {
      var ok := account.ResetUserPassword(credential.password);
      if !ok {
        return Failure(RequestFailed);
      }
      result := result.(passwordSet := true);
    }
    var rolesChanged := ReconcileRealmRoles(account, spec.realmRoles);
    if rolesChanged.Failure? {
      return Failure(rolesChanged.error);
    }
    GroupsWritten(account.groups, spec);
    var groupsChanged := ReconcileUserGroups(account, spec.groups);
    if groupsChanged.Failure? {
      return Failure(groupsChanged.error);
    }
    if rolesChanged.value || groupsChanged.value {
      result := result.(updated := true);
    }
    return Success(result);
  }

  /** Groups listed by Keycloak cover the declared ones exactly when these are declared canonically too. */
  lemma GroupsWritten(groups: set<string>, spec: UserSpec)
    requires forall g :: g in groups ==> GroupPath(g) == g
    ensures Names(Declared(spec.groups)) <= groups <==>
              CanonicalGroups(spec) && GroupPaths(Declared(spec.groups)) <= groups
  {
    var declared := Declared(spec.groups);
    forall g | g in declared
      ensures g in Names(declared) && GroupPath(g) in GroupPaths(declared)
    {
    }
  }

  /**
   Once everything declared is there, as a successful pass leaves it, no number of later
   passes changes anything, whatever becomes of them, when all groups are declared the
   way Keycloak lists them and no rotation is asked for; the successful ones report so.
   Otherwise every successful pass writes.
   */
  method ReconcileUserAgain(account: Account, spec: UserSpec, credential: Credential, passes: nat)
    returns (succeeded: nat, quiet: bool)
    requires account.Valid()
    modifies account
    ensures account.Valid()
    ensures old(Applied(account, spec)) && CanonicalGroups(spec)
            && !(credential.rotate && credential.password != "") ==>
              unchanged(account) && quiet
    ensures !CanonicalGroups(spec) || (credential.rotate && credential.password != "") ==>
              account.writes >= old(account.writes) + succeeded
    ensures account.reliable && AllDefined(account, spec) ==> succeeded == passes
  {
    hide Applied, CanonicalGroups, AllDefined, Within;
    succeeded, quiet := 0, true;
    for n := 0 to passes
      invariant account.Valid() && succeeded <= n
      invariant (old(Applied(account, spec)) && CanonicalGroups(spec)
                 && !(credential.rotate && credential.password != "")) ==> unchanged(account) && quiet
      invariant !CanonicalGroups(spec) || (credential.rotate && credential.password != "") ==>
                  account.writes >= old(account.writes) + succeeded
      invariant account.reliable && AllDefined(account, spec) ==> succeeded == n
    {
      if Applied(account, spec) {
        AppliedIsLive(account, spec);
      }
      var r := ReconcileUser(account, spec, credential);
      if r.Success? {
        succeeded, quiet := succeeded + 1, quiet && r.value == UserResult(false, true, false, false);
      }
    }
  }

  lemma AppliedIsLive(account: Account, spec: UserSpec)
    requires account.Valid() && Applied(account, spec)
    ensures account.live.Some?
  {
  }

  /** An example: a group declared without its leading slash is added again on every pass. */
  lemma SlashlessGroupIsNotCanonical(spec: UserSpec)
    requires spec.groups == Some(["neteye-admins"])
    ensures !CanonicalGroups(spec)
  {
    var g := "neteye-admins";
    assert g in Declared(spec.groups) && GroupPath(g)[0] != g[0];
  }
}
