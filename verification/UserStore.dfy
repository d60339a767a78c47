/** The part of Keycloak that belongs to one account, behind calls that can fail. */
module UserStore {
  import opened Wrappers
  import opened Merge

  function TrimSlashesLeft(s: string): string {
    if s != "" && s[0] == '/' then TrimSlashesLeft(s[1..]) else s
  }

  function TrimSlashesRight(s: string): string {
    if s != "" && s[|s| - 1] == '/' then TrimSlashesRight(s[..|s| - 1]) else s
  }

  /** The path Keycloak lists a group under, from any way of writing it. */
  function GroupPath(path: string): string { "/" + TrimSlashesRight(TrimSlashesLeft(path)) }

  lemma {:induction false} TrimmedRight(s: string)
    ensures var t := TrimSlashesRight(s); t != "" ==> t[|t| - 1] != '/' && t[0] == s[0]
  {
    if s != "" && s[|s| - 1] == '/' {
      TrimmedRight(s[..|s| - 1]);
    }
  }

  lemma {:induction false} TrimmedLeft(s: string)
    ensures var t := TrimSlashesLeft(s); t != "" ==> t[0] != '/'
  {
    if s != "" && s[0] == '/' {
      TrimmedLeft(s[1..]);
    }
  }

  /** Listed paths are written the one way Keycloak writes them. */
  lemma GroupPathIsCanonical(path: string)
    ensures GroupPath(GroupPath(path)) == GroupPath(path)
  {
    var inner := TrimSlashesRight(TrimSlashesLeft(path));
    TrimmedLeft(path);
    TrimmedRight(TrimSlashesLeft(path));
    var full := GroupPath(path);
    assert full[1..] == inner;
    assert TrimSlashesLeft(full) == TrimSlashesLeft(inner) == inner;
  }

  predicate Slashes(s: string) { forall c :: c in s ==> c == '/' }

  lemma {:induction false} LeftSlashes(s: string) returns (a: string)
    ensures Slashes(a) && s == a + TrimSlashesLeft(s)
  {
    a := "";
    if s != "" && s[0] == '/' {
      var rest := LeftSlashes(s[1..]);
      a := "/" + rest;
    }
  }

  lemma {:induction false} RightSlashes(s: string) returns (b: string)
    ensures Slashes(b) && s == TrimSlashesRight(s) + b
  {
    b := "";
    if s != "" && s[|s| - 1] == '/' {
      var rest := RightSlashes(s[..|s| - 1]);
      b := rest + "/";
    }
  }

  /** The path is one slash and what any way of writing it is without the slashes around. */
  lemma GroupPathMeans(path: string) returns (a: string, inner: string, b: string)
    ensures Slashes(a) && Slashes(b) && path == a + inner + b && GroupPath(path) == "/" + inner
    ensures inner != "" ==> inner[0] != '/' && inner[|inner| - 1] != '/'
  {
    var left := TrimSlashesLeft(path);
    inner := TrimSlashesRight(left);
    a := LeftSlashes(path);
    b := RightSlashes(left);
    TrimmedLeft(path);
    TrimmedRight(left);
  }

  function GroupPaths(paths: seq<string>): set<string> { set p | p in paths :: GroupPath(p) }

  function Names(names: seq<string>): set<string> { set n | n in names }

  class Account {
    var live: Option<Json>
    var password: Option<string>
    /** The names of the realm roles mapped to the account, and the paths of its groups. */
    var roles: set<string>
    var groups: set<string>
    /** What the realm offers. */
    const realmRoles: set<string>
    const realmGroups: set<string>
    /** The number of write requests so far. */
    var writes: nat
    /** No request fails. */
    const reliable: bool

    ghost predicate Valid() reads this {
      && (live.Some? ==> live.value.Object?)
      && (live.None? ==> password.None? && roles == {} && groups == {})
      && forall g :: g in groups ==> GroupPath(g) == g
    }

    /** An account absent so far. */
    constructor (realmRoles: set<string>, realmGroups: set<string>, reliable: bool)
      ensures Valid() && live.None? && writes == 0 && this.reliable == reliable
    {
      live, password, roles, groups, writes := None, None, {}, {}, 0;
      this.realmRoles, this.realmGroups, this.reliable := realmRoles, realmGroups, reliable;
    }

    method GetUser() returns (ok: bool, user: Option<Json>)
      ensures ok ==> user == live
      ensures reliable ==> ok
    {
      ok := Attempt(reliable);
      user := live;
    }

    /**
     Creates the account with its password. The request may fail before or after
     it took effect; the realm may add fields, roles and groups of its own.
     */
    method CreateUser(user: Json, initial: Option<string>) returns (ok: bool)
      requires Valid() && live.None? && user.Object?
      modifies this
      ensures Valid() && writes == old(writes) + 1
      ensures if live.Some? then Within(user, live.value) && password == initial else !ok && password.None?
      ensures reliable ==> ok
    {
      writes := writes + 1;
      var arrives := Attempt(reliable);
      if !arrives {
        return false;
      }
      var kept := Keep(user);
      live, password := Some(kept), initial;
      roles := *;
      groups := *;
      groups := set g | g in groups && GroupPath(g) == g;
      ok := Attempt(reliable);
    }

    method UpdateUser(user: Json) returns (ok: bool)
      requires Valid() && live.Some? && user.Object?
      modifies this`live, this`writes
      ensures Valid() && writes == old(writes) + 1 && live.Some?
      ensures Within(user, live.value) || (!ok && live == old(live))
      ensures reliable ==> ok
    {
      writes := writes + 1;
      var arrives := Attempt(reliable);
      if !arrives {
        return false;
      }
      var kept := Keep(user);
      live := Some(kept);
      ok := Attempt(reliable);
    }

    method ResetUserPassword(value: string) returns (ok: bool)
      requires Valid() && live.Some?
      modifies this`password, this`writes
      ensures Valid() && writes == old(writes) + 1
      ensures password == Some(value) || (!ok && password == old(password))
      ensures reliable ==> ok
    {
      writes := writes + 1;
      var arrives := Attempt(reliable);
      if !arrives {
        return false;
      }
      password := Some(value);
      ok := Attempt(reliable);
    }

    method ListUserRealmRoles() returns (ok: bool, listed: set<string>)
      ensures ok ==> listed == roles
      ensures reliable ==> ok
    {
      ok := Attempt(reliable);
      listed := roles;
    }

    method GetRealmRole(name: string) returns (ok: bool, found: bool)
      ensures ok ==> (found <==> name in realmRoles)
      ensures reliable ==> ok
    {
      ok := Attempt(reliable);
      found := name in realmRoles;
    }

    method AddUserRealmRoles(missing: seq<string>) returns (ok: bool)
      requires Valid() && live.Some?
      modifies this`roles, this`writes
      ensures Valid() && writes == old(writes) + 1
      ensures roles == old(roles) + Names(missing) || (!ok && roles == old(roles))
      ensures reliable ==> ok
    {
      writes := writes + 1;
      var arrives := Attempt(reliable);
      if !arrives {
        return false;
      }
      roles := roles + Names(missing);
      ok := Attempt(reliable);
    }

    method ListUserGroups() returns (ok: bool, listed: set<string>)
      ensures ok ==> listed == groups
      ensures reliable ==> ok
    {
      ok := Attempt(reliable);
      listed := groups;
    }

    /** The path the group is listed under, none when the realm has no such group. */
    method GetGroupByPath(path: string) returns (ok: bool, group: Option<string>)
      ensures ok ==> group == if GroupPath(path) in realmGroups then Some(GroupPath(path)) else None
      ensures reliable ==> ok
    {
      ok := Attempt(reliable);
      group := if GroupPath(path) in realmGroups then Some(GroupPath(path)) else None;
    }

    method AddUserToGroup(group: string) returns (ok: bool)
      requires Valid() && live.Some? && GroupPath(group) == group
      modifies this`groups, this`writes
      ensures Valid() && writes == old(writes) + 1
      ensures groups == old(groups) + {group} || (!ok && groups == old(groups))
      ensures reliable ==> ok
    {
      writes := writes + 1;
      var arrives := Attempt(reliable);
      if !arrives {
        return false;
      }
      groups := groups + {group};
      ok := Attempt(reliable);
    }
  }

  /** What a server may keep of an object it was sent: all of it, and more. */
  method Keep(sent: Json) returns (kept: Json)
    requires sent.Object?
    ensures kept.Object? && Within(sent, kept)
  {
    kept := *;
    if !(kept.Object? && Within(sent, kept)) {
      WithinReflexive(sent);
      kept := sent;
    }
  }
}
