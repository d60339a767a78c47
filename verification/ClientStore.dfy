/** The part of Keycloak that belongs to one client, behind calls that can fail. */
module ClientStore {
  import opened Wrappers
  import opened Merge
  import opened UserStore

  datatype Kind = Default | Optional

  predicate AllObjects(mappers: seq<Json>) { forall m :: m in mappers ==> m.Object? }

  /** The names of a list of mappers, position by position. */
  function NamesOf(mappers: seq<Json>): (names: seq<string>)
    ensures |names| == |mappers| && forall i :: 0 <= i < |names| ==> names[i] == StringValue(mappers[i], "name")
  {
    seq(|mappers|, i requires 0 <= i < |mappers| => StringValue(mappers[i], "name"))
  }

  /** The roles of an owner granted so far. */
  function RolesOf(granted: map<string, set<string>>, owner: string): set<string> {
    if owner in granted then granted[owner] else {}
  }

  class Client {
    var live: Option<Json>
    var mappers: seq<Json>
    var defaults: set<string>
    var optionals: set<string>
    /** The client roles granted to the service account, by the client that defines them. */
    var granted: map<string, set<string>>
    /** What the realm offers: client scopes, and clients with their roles. */
    const realmScopes: set<string>
    const clientRoles: map<string, set<string>>
    /** The number of write requests so far. */
    var writes: nat
    /** No request fails, and a client that may have one has its service account. */
    const reliable: bool

    ghost predicate Valid() reads this {
      && (live.Some? ==> live.value.Object?) && AllObjects(mappers)
      && (live.None? ==> mappers == [] && defaults == {} && optionals == {} && granted == map[])
    }

    function Scopes(kind: Kind): set<string> reads this {
      if kind.Default? then defaults else optionals
    }

    /** A client absent so far. */
    constructor (realmScopes: set<string>, clientRoles: map<string, set<string>>, reliable: bool)
      ensures Valid() && live.None? && writes == 0 && this.reliable == reliable
    {
      live, mappers, defaults, optionals, granted, writes := None, [], {}, {}, map[], 0;
      this.realmScopes, this.clientRoles, this.reliable := realmScopes, clientRoles, reliable;
    }

    method GetClient() returns (ok: bool, client: Option<Json>)
      ensures ok ==> client == live
      ensures reliable ==> ok
    {
      ok := Attempt(reliable);
      client := live;
    }

    /** The realm may give a new client mappers, scopes and roles of its own. */
    method CreateClient(client: Json) returns (ok: bool)
      requires Valid() && live.None? && client.Object?
      modifies this
      ensures Valid() && writes == old(writes) + 1
      ensures if live.Some? then Within(client, live.value) else !ok
      ensures reliable ==> ok
    {
      writes := writes + 1;
      var arrives := Attempt(reliable);
      if !arrives {
        return false;
      }
      var kept := Keep(client);
      live := Some(kept);
      mappers := *;
      defaults := *;
      optionals := *;
      granted := *;
      if !AllObjects(mappers) {
        mappers := [];
      }
      ok := Attempt(reliable);
    }

    method UpdateClient(client: Json) returns (ok: bool)
      requires Valid() && live.Some? && client.Object?
      modifies this`live, this`writes
      ensures Valid() && writes == old(writes) + 1 && live.Some?
      ensures Within(client, live.value) || (!ok && live == old(live))
      ensures reliable ==> ok
    {
      writes := writes + 1;
      var arrives := Attempt(reliable);
      if !arrives {
        return false;
      }
      var kept := Keep(client);
      live := Some(kept);
      ok := Attempt(reliable);
    }

    method ListProtocolMappers() returns (ok: bool, listed: seq<Json>)
      ensures ok ==> listed == mappers
      ensures reliable ==> ok
    {
      ok := Attempt(reliable);
      listed := mappers;
    }

    method CreateProtocolMapper(mapper: Json) returns (ok: bool)
      requires Valid() && live.Some? && mapper.Object?
      modifies this`mappers, this`writes
      ensures Valid() && writes == old(writes) + 1
      ensures (!ok && mappers == old(mappers))
              || (|mappers| == |old(mappers)| + 1 && mappers[..|old(mappers)|] == old(mappers)
                  && Within(mapper, mappers[|old(mappers)|]))
      ensures reliable ==> ok
    {
      writes := writes + 1;
      var arrives := Attempt(reliable);
      if !arrives {
        return false;
      }
      var kept := Keep(mapper);
      mappers := mappers + [kept];
      ok := Attempt(reliable);
    }

    /** Updates the mapper at a position of the list, which stands for its identifier. */
    method UpdateProtocolMapper(i: nat, mapper: Json) returns (ok: bool)
      requires Valid() && live.Some? && i < |mappers| && mapper.Object?
      modifies this`mappers, this`writes
      ensures Valid() && writes == old(writes) + 1
      ensures (!ok && mappers == old(mappers))
              || (|mappers| == |old(mappers)| && mappers == old(mappers)[i := mappers[i]] && Within(mapper, mappers[i]))
      ensures reliable ==> ok
    {
      writes := writes + 1;
      var arrives := Attempt(reliable);
      if !arrives {
        return false;
      }
      var kept := Keep(mapper);
      mappers := mappers[i := kept];
      ok := Attempt(reliable);
    }

    method ListClientScopes(kind: Kind) returns (ok: bool, listed: set<string>)
      ensures ok ==> listed == Scopes(kind)
      ensures reliable ==> ok
    {
      ok := Attempt(reliable);
      listed := Scopes(kind);
    }

    method ListRealmClientScopes() returns (ok: bool, scopes: set<string>)
      ensures ok ==> scopes == realmScopes
      ensures reliable ==> ok
    {
      ok := Attempt(reliable);
      scopes := realmScopes;
    }

    /** Assigning a scope with one kind may take it away from the other. */
    method AddClientScope(kind: Kind, scope: string) returns (ok: bool)
      requires Valid() && live.Some?
      modifies this`defaults, this`optionals, this`writes
      ensures Valid() && writes == old(writes) + 1
      ensures if scope in Scopes(kind) then Scopes(kind) == old(Scopes(kind)) + {scope}
              else !ok && Scopes(kind) == old(Scopes(kind))
      ensures var other := if kind.Default? then Optional else Default;
              Scopes(other) == old(Scopes(other))
                || (Scopes(other) == old(Scopes(other)) - {scope} && scope in Scopes(kind))
      ensures reliable ==> ok
    {
      writes := writes + 1;
      var arrives := Attempt(reliable);
      if !arrives {
        return false;
      }
      var moved: bool := *;
      if kind.Default? {
        defaults, optionals := defaults + {scope}, if moved then optionals - {scope} else optionals;
      } else {
        defaults, optionals := if moved then defaults - {scope} else defaults, optionals + {scope};
      }
      ok := Attempt(reliable);
    }

    /** Whether Keycloak keeps a service account for the client. */
    method GetServiceAccountUser() returns (ok: bool, found: bool)
      ensures reliable ==> ok && found
    {
      ok := Attempt(reliable);
      found := Attempt(reliable);
    }

    /** The client defining the roles, none when the realm has no such client. */
    method GetRoleOwner(owner: string) returns (ok: bool, found: bool)
      ensures ok ==> (found <==> owner in clientRoles)
      ensures reliable ==> ok
    {
      ok := Attempt(reliable);
      found := owner in clientRoles;
    }

    method ListUserClientRoles(owner: string) returns (ok: bool, listed: set<string>)
      ensures ok ==> listed == RolesOf(granted, owner)
      ensures reliable ==> ok
    {
      ok := Attempt(reliable);
      listed := RolesOf(granted, owner);
    }

    method GetClientRole(owner: string, name: string) returns (ok: bool, found: bool)
      requires owner in clientRoles
      ensures ok ==> (found <==> name in clientRoles[owner])
      ensures reliable ==> ok
    {
      ok := Attempt(reliable);
      found := name in clientRoles[owner];
    }

    method AddUserClientRoles(owner: string, missing: seq<string>) returns (ok: bool)
      requires Valid() && live.Some?
      modifies this`granted, this`writes
      ensures Valid() && writes == old(writes) + 1
      ensures granted == old(granted)[owner := RolesOf(old(granted), owner) + Names(missing)]
              || (!ok && granted == old(granted))
      ensures reliable ==> ok
    {
      writes := writes + 1;
      var arrives := Attempt(reliable);
      if !arrives {
        return false;
      }
      granted := granted[owner := RolesOf(granted, owner) + Names(missing)];
      ok := Attempt(reliable);
    }
  }
}
