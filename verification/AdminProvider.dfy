/**
 The Admin API client the operator keeps: which credential it is built from, when
 the internal account is probed, and that namespaces never share one.
 */
module AdminProvider {
  import opened Wrappers

  const INTERNAL_ADMIN := "neteye-internal-keycloak-admin"
  const RETRY_INTERVAL := 60
  const IDLE_MAX_AGE := 1800

  datatype Credentials = Credentials(username: string, password: string)

  /** A client, numbered in the order of building. */
  datatype Api = Api(id: nat, credentials: Credentials)

  /** A token request made to try a client's credential. */
  datatype Probe = Probe(api: Api, started: int, ended: int, accepted: bool)

  datatype ProviderError = SecretUnreadable | NoAdminCredentials | TenantRejected

  /** What the credential Secrets hold: the internal account's passwords, and the bootstrap accounts, by namespace. */
  datatype Held = Held(internalPasswords: map<string, string>, bootstraps: map<string, Credentials>)
  {
    /** An empty password counts as missing. */
    function Internal(namespace: string): (r: Option<Credentials>)
      ensures r.Some? <==> namespace in internalPasswords && internalPasswords[namespace] != ""
      ensures r.Some? ==> r.value == Credentials("neteye-internal-keycloak-admin", internalPasswords[namespace])
    {
      if namespace in internalPasswords && internalPasswords[namespace] != ""
      then Some(Credentials(INTERNAL_ADMIN, internalPasswords[namespace]))
      else None
    }

    /** So does a missing user name. */
    function Bootstrap(namespace: string): (r: Option<Credentials>)
      ensures r.Some? <==>
                namespace in bootstraps && "" !in [bootstraps[namespace].username, bootstraps[namespace].password]
      ensures r.Some? ==> r.value == bootstraps[namespace]
    {
      if namespace in bootstraps && bootstraps[namespace].username != "" && bootstraps[namespace].password != ""
      then Some(bootstraps[namespace])
      else None
    }
  }

  /** The credential Secrets by namespace, and the clock. */
  class Cluster {
    /** The password of the internal account; empty counts as missing. */
    var internalPasswords: map<string, string>
    /** The bootstrap Secret's user name and password, either perhaps empty. */
    var bootstraps: map<string, Credentials>
    var clock: int
    /** Reading a Secret does not fail. */
    const reliable: bool

    constructor (reliable: bool)
      ensures this.reliable == reliable
    {
      internalPasswords, bootstraps, clock := map[], map[], 0;
      this.reliable := reliable;
    }

    method Now() returns (now: int)
      modifies this`clock
      ensures now == clock >= old(clock)
    {
      var reading: int := *;
      if reading > clock {
        clock := reading;
      }
      now := clock;
    }

    function Internal(namespace: string): Option<Credentials>
      reads this
    {
      Secrets().Internal(namespace)
    }

    function Bootstrap(namespace: string): Option<Credentials>
      reads this
    {
      Secrets().Bootstrap(namespace)
    }

    function Secrets(): Held
      reads this
    {
      Held(internalPasswords, bootstraps)
    }

    method InternalAdminCredentials(namespace: string) returns (r: Result<Option<Credentials>, ProviderError>)
      ensures r.Success? ==> r.value == Internal(namespace)
      ensures r.Failure? ==> r.error.SecretUnreadable? && !reliable
    {
      var readable := Attempt(reliable);
      if !readable {
        return Failure(SecretUnreadable);
      }
      return Success(Internal(namespace));
    }

    method BootstrapAdminCredentials(namespace: string) returns (r: Result<Credentials, ProviderError>)
      ensures r.Success? ==> Bootstrap(namespace) == Some(r.value)
      ensures r.Failure? ==>
                (r.error.SecretUnreadable? && !reliable) || (r.error.NoAdminCredentials? && Bootstrap(namespace).None?)
    {
      var readable := Attempt(reliable);
      if !readable {
        return Failure(SecretUnreadable);
      }
      if Bootstrap(namespace).None? {
        return Failure(NoAdminCredentials);
      }
      return Success(Bootstrap(namespace).value);
    }
  }

  ghost predicate AcceptedBy(probes: seq<Probe>, api: Api) {
    exists p :: p in probes && p.api == api && p.accepted
  }

  /** Rejected probes are a minute apart, and the next one, which is not before `next`, will be. */
  ghost predicate Spaced(probes: seq<Probe>, next: Option<int>, clock: int) {
    && (forall i, j :: 0 <= i < j < |probes| && !probes[i].accepted && !probes[j].accepted ==>
          probes[j].started >= probes[i].ended + 60)
    && (forall p :: p in probes && !p.accepted ==> p.ended + 60 <= if next.Some? then next.value else clock)
  }

  lemma SpacedNext(probes: seq<Probe>, next: Option<int>, clock: int, probe: Probe)
    requires Spaced(probes, next, clock) && clock <= probe.started <= probe.ended
    requires next.Some? ==> next.value <= probe.started
    ensures Spaced(probes + [probe], if probe.accepted then None else Some(probe.ended + 60), probe.ended)
  {
  }

  /** A minute after the last probe, if that was rejected. */
  ghost function WaitAfter(probes: seq<Probe>): Option<int> {
    if probes == [] || probes[|probes| - 1].accepted then None else Some(probes[|probes| - 1].ended + 60)
  }

  class Provider {
    const credentialNamespace: string
    const skipInternalAdmin: bool
    var api: Option<Api>
    /** When a rejected internal account may be tried again, none when at once. */
    var nextInternalAttempt: Option<int>
    /** The clients built so far, and every probe of the internal account and of a tenant's. */
    var built: nat
    ghost var probes: seq<Probe>
    ghost var tenantProbes: seq<Probe>

    constructor (credentialNamespace: string, skipInternalAdmin: bool)
      ensures this.credentialNamespace == credentialNamespace && this.skipInternalAdmin == skipInternalAdmin
      ensures Numbered() && Trusted() && api.None? && nextInternalAttempt.None? && probes == [] && tenantProbes == []
      ensures forall clock :: Throttled(clock)
    {
      this.credentialNamespace, this.skipInternalAdmin := credentialNamespace, skipInternalAdmin;
      api, nextInternalAttempt, built, probes, tenantProbes := None, None, 0, [], [];
    }

    ghost predicate Numbered() reads this {
      && (api.Some? ==> api.value.id < built)
      && (forall p :: p in probes ==> p.api.id < built && p.api.credentials.username == INTERNAL_ADMIN)
      && (forall p :: p in tenantProbes ==> p.api.id < built)
      && (skipInternalAdmin ==> probes == [])
    }

    /** Keycloak accepted this client's credential when the client was built. */
    ghost predicate Accepted(api: Api) reads this`probes, this`tenantProbes {
      AcceptedBy(probes + tenantProbes, api)
    }

    /** The held client was accepted, if it is the internal account's or a tenant's. */
    ghost predicate Trusted() reads this {
      api.Some? && (skipInternalAdmin || api.value.credentials.username == INTERNAL_ADMIN) ==> Accepted(api.value)
    }

    /** Rejections so far are a minute apart, and the next probe will be; until then there is a wait, and no longer. */
    ghost predicate Throttled(clock: int) reads this`probes, this`nextInternalAttempt {
      nextInternalAttempt == WaitAfter(probes) && Spaced(probes, nextInternalAttempt, clock)
    }

    /** A client from a credential in a Secret right now. */
    ghost predicate Current(cluster: Cluster, api: Api) reads cluster {
      (!skipInternalAdmin && cluster.Internal(credentialNamespace) == Some(api.credentials))
      || cluster.Bootstrap(credentialNamespace) == Some(api.credentials)
    }

    predicate Throttling(clock: int, next: Option<int>) {
      next.Some? && clock < next.value
    }

    /** One more probe was made, and it was rejected. */
    ghost predicate JustRejected(before: seq<Probe>) reads this`probes {
      |probes| == |before| + 1 && !probes[|before|].accepted
    }

    method Build(credentials: Credentials) returns (client: Api)
      modifies this`built
      ensures client == Api(old(built), credentials) && built == old(built) + 1
    {
      client := Api(built, credentials);
      built := built + 1;
    }

    /** Tries the internal account, unless it was rejected not long ago. */
    method VerifyInternal(cluster: Cluster, credentials: Credentials) returns (client: Option<Api>)
      requires Numbered() && Throttled(cluster.clock) && !skipInternalAdmin && credentials.username == INTERNAL_ADMIN
      modifies this, cluster`clock
      ensures Numbered() && Throttled(cluster.clock) && cluster.clock >= old(cluster.clock)
      ensures old(Trusted()) ==> Trusted()
      ensures client.Some? ==> api == client && client.value.credentials == credentials && Accepted(client.value)
      ensures client.None? ==> api == old(api)
      ensures old(nextInternalAttempt).Some? && cluster.clock < old(nextInternalAttempt).value ==>
                client.None? && built == old(built) && probes == old(probes)
      ensures old(probes) <= probes && tenantProbes == old(tenantProbes)
      ensures client.None? ==> Throttling(cluster.clock, old(nextInternalAttempt)) || JustRejected(old(probes))
    {
      var now := cluster.Now();
      if nextInternalAttempt.Some? && now < nextInternalAttempt.value {
        return None;
      }
      hide Spaced;
      var candidate := Build(credentials);
      var accepted: bool := *;
      var ended := cluster.Now();
      SpacedNext(probes, nextInternalAttempt, old(cluster.clock), Probe(candidate, now, ended, accepted));
      probes := probes + [Probe(candidate, now, ended, accepted)];
      assert probes[|probes| - 1] in probes + tenantProbes;
      if !accepted {
        nextInternalAttempt := Some(ended + RETRY_INTERVAL);
        return None;
      }
      nextInternalAttempt := None;
      api := Some(candidate);
      return Some(candidate);
    }

    /** The held client, when it is still the credential's. */
    method Cached(credentials: Credentials) returns (client: Option<Api>)
      ensures client == if api.Some? && api.value.credentials == credentials then api else None
    {
      return if api.Some? && api.value.credentials == credentials then api else None;
    }

    /** The bootstrap client, or a tenant's, which is tried before it is held. */
    method GetBootstrap(cluster: Cluster) returns (r: Result<Api, ProviderError>)
      requires Numbered()
      modifies this`api, this`built, this`tenantProbes
      ensures Numbered() && old(tenantProbes) <= tenantProbes
      ensures r.Success? ==> cluster.Bootstrap(credentialNamespace) == Some(r.value.credentials) && api == Some(r.value)
      ensures r.Success? ==>
                r.value == if old(api).Some?
                              && cluster.Bootstrap(credentialNamespace) == Some(old(api).value.credentials)
                           then old(api).value else Api(old(built), r.value.credentials)
      ensures r.Success? && r.value.id < old(built) ==> built == old(built) && tenantProbes == old(tenantProbes)
      ensures r.Success? && skipInternalAdmin && old(Trusted()) ==> Accepted(r.value)
      ensures !skipInternalAdmin ==> tenantProbes == old(tenantProbes)
      ensures r.Failure? ==> api == old(api) && (r.error.SecretUnreadable? ==> !cluster.reliable)
      ensures r.Failure? && r.error.NoAdminCredentials? ==> cluster.Bootstrap(credentialNamespace).None?
      ensures r.Failure? && r.error.TenantRejected? ==>
                skipInternalAdmin && tenantProbes != [] && !tenantProbes[|tenantProbes| - 1].accepted
    {
      var bootstrap := cluster.BootstrapAdminCredentials(credentialNamespace);
      if bootstrap.Failure? {
        return Failure(bootstrap.error);
      }
      var client := Cached(bootstrap.value);
      if client.Some? {
        return Success(client.value);
      }
      var candidate := Build(bootstrap.value);
      if skipInternalAdmin {
        var accepted: bool := *;
        tenantProbes := tenantProbes + [Probe(candidate, cluster.clock, cluster.clock, accepted)];
        assert tenantProbes[|tenantProbes| - 1] in probes + tenantProbes;
        if !accepted {
          return Failure(TenantRejected);
        }
      }
      api := Some(candidate);
      return Success(candidate);
    }

    /**
     The client to use: always one from a credential in a Secret right now, the internal
     account's whenever there is one, unless it was just rejected or not long ago. It is
     the internal account's, or a tenant's, only when Keycloak accepted that credential
     for this very client; a client that still fits is handed out again.
     */
    method Get(cluster: Cluster) returns (r: Result<Api, ProviderError>)
      requires Numbered() && Throttled(cluster.clock)
      modifies this, cluster`clock
      ensures Numbered() && Throttled(cluster.clock) && cluster.clock >= old(cluster.clock)
      ensures old(probes) <= probes && old(tenantProbes) <= tenantProbes
      ensures r.Success? ==> Current(cluster, r.value) && api == Some(r.value)
      ensures old(Trusted()) && (skipInternalAdmin || BootstrapIsOther(cluster)) ==> Trusted()
      ensures r.Success? && old(Trusted()) && (skipInternalAdmin || BootstrapIsOther(cluster)) ==>
                skipInternalAdmin || r.value.credentials.username == INTERNAL_ADMIN ==> Accepted(r.value)
      // preference, and reuse
      ensures r.Success? && !skipInternalAdmin && cluster.Internal(credentialNamespace).Some?
              && cluster.Internal(credentialNamespace).value != r.value.credentials ==>
                Throttling(cluster.clock, old(nextInternalAttempt)) || JustRejected(old(probes))
      ensures r.Success? && cluster.Internal(credentialNamespace).None? && !skipInternalAdmin && old(api).None? ==>
                !Accepted(r.value)
      ensures r.Success? && old(api).Some? && !skipInternalAdmin
              && cluster.Internal(credentialNamespace) == Some(old(api).value.credentials) ==>
                r.value == old(api).value && built == old(built) && probes == old(probes)
      ensures r.Success? && old(api).Some? && (skipInternalAdmin || cluster.Internal(credentialNamespace).None?)
              && cluster.Bootstrap(credentialNamespace) == Some(old(api).value.credentials) ==>
                && r.value == old(api).value && built == old(built) && probes == old(probes)
                && tenantProbes == old(tenantProbes)
      // failures
      ensures cluster.reliable && r.Failure? ==>
                || cluster.Bootstrap(credentialNamespace).None?
                || (skipInternalAdmin && tenantProbes != [] && !tenantProbes[|tenantProbes| - 1].accepted)
    {
      hide Throttled;
      if !skipInternalAdmin {
        var internal := cluster.InternalAdminCredentials(credentialNamespace);
        if internal.Failure? {
          return Failure(internal.error);
        }
        if internal.value.Some? {
          var client := Cached(internal.value.value);
          if client.Some? {
            return Success(client.value);
          }
          client := VerifyInternal(cluster, internal.value.value);
          if client.Some? {
            return Success(client.value);
          }
        }
      }
      r := GetBootstrap(cluster);
    }

    /** The bootstrap account does not go by the internal account's name. */
    predicate BootstrapIsOther(cluster: Cluster) reads cluster {
      cluster.Bootstrap(credentialNamespace).Some? ==>
        cluster.Bootstrap(credentialNamespace).value.username != INTERNAL_ADMIN
    }
  }

  /**
   Why the names must differ: a bootstrap account named like the internal one is
   handed out under that name without ever having been tried.
   */
  method BootstrapUnderInternalName(password: string) returns (r: Result<Api, ProviderError>, provider: Provider)
    requires password != ""
    ensures r.Success? && r.value.credentials == Credentials(INTERNAL_ADMIN, password) && !provider.Accepted(r.value)
  {
    var cluster := new Cluster(true);
    cluster.internalPasswords, cluster.bootstraps := map[], map["neteye" := Credentials(INTERNAL_ADMIN, password)];
    provider := new Provider("neteye", false);
    r := provider.Get(cluster);
  }

  datatype Entry = Entry(provider: Provider, lastUsed: int)

  /** A provider handed out for a namespace. */
  datatype Loan = Loan(namespace: string, provider: Provider)

  /** What a request for a client came to. */
  datatype Service = Service(namespace: string, provider: Provider, client: Result<Api, ProviderError>)

  /** One provider for each credential namespace in use. */
  class Registry {
    const endpointNamespace: string
    var providers: map<string, Entry>
    /** Every provider handed out so far. */
    ghost var loans: seq<Loan>
    /** Every request for a client so far. */
    ghost var served: seq<Service>

    constructor (endpointNamespace: string)
      ensures this.endpointNamespace == endpointNamespace && providers == map[] && loans == [] && served == []
    {
      this.endpointNamespace := endpointNamespace;
      providers, loans, served := map[], [], [];
    }

    ghost function Providers(): set<Provider> reads this {
      set namespace | namespace in providers :: providers[namespace].provider
    }

    /** Every provider is its own namespace's, and was only ever handed out for that one. */
    ghost predicate Separated() reads this {
      && (forall namespace :: namespace in providers ==>
            && providers[namespace].provider.credentialNamespace == namespace
            && providers[namespace].provider.skipInternalAdmin == (namespace != endpointNamespace))
      && forall loan :: loan in loans ==> loan.provider.credentialNamespace == loan.namespace
    }

    /** Every provider keeps its own rules. */
    ghost predicate Sound(clock: int) reads this, Providers() {
      && Separated()
      && forall namespace :: namespace in providers ==>
           var p := providers[namespace].provider;
           p.Numbered() && p.Throttled(clock) && p.Trusted()
    }

    /** Whoever was served a client of the internal account, or a tenant one, Keycloak had accepted it. */
    ghost predicate Vouched()
      reads this, set service | service in served :: service.provider
    {
      forall service :: service in served ==> VouchedFor(service)
    }

    ghost predicate VouchedFor(service: Service)
      reads service.provider
    {
      service.client.Success?
      && (service.namespace != endpointNamespace || service.client.value.credentials.username == INTERNAL_ADMIN) ==>
        service.provider.Accepted(service.client.value)
    }

    /** Each request was served by the provider lent for it. */
    ghost predicate Matched()
      reads this
    {
      && |served| == |loans|
      && forall i :: 0 <= i < |served| ==> loans[i] == Loan(served[i].namespace, served[i].provider)
    }

    method EvictIdle(now: int, maxAge: int)
      modifies this`providers
      ensures forall namespace :: namespace in providers <==>
                namespace in old(providers) && now - old(providers)[namespace].lastUsed <= maxAge
      ensures forall namespace :: namespace in providers ==> providers[namespace] == old(providers)[namespace]
    {
      var todo := providers.Keys;
      while todo != {}
        invariant todo <= old(providers).Keys
        invariant forall namespace :: namespace in providers <==>
                    namespace in old(providers)
                      && (namespace in todo || now - old(providers)[namespace].lastUsed <= maxAge)
        invariant forall namespace :: namespace in providers ==> providers[namespace] == old(providers)[namespace]
        decreases todo
      {
        var namespace :| namespace in todo;
        todo := todo - {namespace};
        if now - providers[namespace].lastUsed > maxAge {
          providers := providers - {namespace};
        }
      }
    }

    method Forget(credentialNamespace: string)
      modifies this`providers
      ensures providers == old(providers) - {credentialNamespace}
    {
      providers := providers - {credentialNamespace};
    }

    /** The namespace's own provider: the one in use, or a new one when it was forgotten or idle for too long. */
    method For(cluster: Cluster, credentialNamespace: string) returns (provider: Provider)
      requires Separated()
      modifies this`providers, this`loans, cluster`clock
      ensures Separated() && cluster.clock >= old(cluster.clock)
      ensures loans == old(loans) + [Loan(credentialNamespace, provider)]
      ensures provider.credentialNamespace == credentialNamespace
      ensures credentialNamespace in providers && providers[credentialNamespace] == Entry(provider, cluster.clock)
      ensures if credentialNamespace in old(providers)
              && cluster.clock - old(providers)[credentialNamespace].lastUsed <= 1800
              then provider == old(providers)[credentialNamespace].provider
              else
                && fresh(provider) && provider.api.None? && provider.Numbered() && provider.Trusted()
                && provider.Throttled(cluster.clock)
      ensures forall other :: other != credentialNamespace ==>
                (other in providers <==>
                  other in old(providers) && cluster.clock - old(providers)[other].lastUsed <= 1800)
      ensures forall other :: other != credentialNamespace && other in providers ==>
                providers[other] == old(providers)[other]
    {
      var now := cluster.Now();
      EvictIdle(now, IDLE_MAX_AGE);
      if credentialNamespace in providers {
        provider := providers[credentialNamespace].provider;
        providers := providers[credentialNamespace := Entry(provider, now)];
        loans := loans + [Loan(credentialNamespace, provider)];
        return;
      }
      provider := new Provider(credentialNamespace, credentialNamespace != endpointNamespace);
      providers := providers[credentialNamespace := Entry(provider, now)];
      loans := loans + [Loan(credentialNamespace, provider)];
    }
  }

  /** What a controller does: takes the namespace's provider and asks it for a client. */
  method ClientFor(registry: Registry, cluster: Cluster, namespace: string)
    returns (provider: Provider, r: Result<Api, ProviderError>)
    requires registry.Sound(cluster.clock) && BootstrapsAreOthers(cluster)
    modifies registry`providers, registry`loans, registry.Providers(), cluster`clock
    ensures registry.Sound(cluster.clock) && cluster.clock >= old(cluster.clock)
    ensures registry.loans == old(registry.loans) + [Loan(namespace, provider)]
    ensures forall p :: p in old(registry.Providers()) ==>
              old(p.probes) <= p.probes && old(p.tenantProbes) <= p.tenantProbes
    ensures provider.credentialNamespace == namespace && (provider in old(registry.Providers()) || fresh(provider))
    ensures fresh(registry.Providers() - old(registry.Providers()))
    ensures provider.skipInternalAdmin == (namespace != registry.endpointNamespace)
    ensures r.Success? ==> provider.Current(cluster, r.value)
    ensures r.Failure? && cluster.reliable && namespace == registry.endpointNamespace ==>
              cluster.Bootstrap(namespace).None?
    ensures r.Success?
            && (namespace != registry.endpointNamespace || r.value.credentials.username == INTERNAL_ADMIN) ==>
              provider.Accepted(r.value)
  {
    hide Provider.Numbered, Provider.Throttled, Provider.Trusted, Provider.Accepted;
    assert cluster.Bootstrap(namespace).Some? ==> cluster.Bootstrap(namespace).value.username != INTERNAL_ADMIN;
    var before := cluster.clock;
    provider := registry.For(cluster, namespace);
    forall other | other in registry.providers
      ensures var p := registry.providers[other].provider;
              p.Numbered() && p.Throttled(cluster.clock) && p.Trusted() && (p == provider <==> other == namespace)
    {
      LaterThrottled(registry.providers[other].provider, before, cluster.clock);
    }
    before := cluster.clock;
    label found:
    r := provider.Get(cluster);
    assert cluster.Bootstrap(namespace) == old(cluster.Bootstrap(namespace));
    assert provider.BootstrapIsOther(cluster) && provider.Trusted();
    forall other | other in registry.providers
      ensures var p := registry.providers[other].provider;
              p.Numbered() && p.Throttled(cluster.clock) && p.Trusted()
    {
      if other == namespace {
        assert registry.providers[other].provider == provider;
      } else {
        var p := registry.providers[other].provider;
        assert p != provider && old@found(p.Numbered() && p.Throttled(before) && p.Trusted());
        assert unchanged@found(p);
        LaterThrottled(p, before, cluster.clock);
      }
    }
  }

  lemma LaterThrottled(provider: Provider, before: int, now: int)
    requires before <= now
    ensures provider.Throttled(before) ==> provider.Throttled(now)
  {
  }

  ghost predicate BootstrapsAreOthers(cluster: Cluster) reads cluster {
    forall namespace :: cluster.Bootstrap(namespace).Some? ==>
      cluster.Bootstrap(namespace).value.username != INTERNAL_ADMIN
  }

  datatype Request =
    | Use(namespace: string)
    | Forget(namespace: string)
    | Secrets(internalPasswords: map<string, string>, bootstraps: map<string, Credentials>)

  ghost predicate OtherNames(bootstraps: map<string, Credentials>) {
    forall namespace :: namespace in bootstraps ==> bootstraps[namespace].username != INTERNAL_ADMIN
  }

  /** The Secrets after the requests. */
  function SecretsAfter(start: Held, requests: seq<Request>): Held {
    if requests == [] then start
    else
      var n := |requests| - 1;
      if requests[n].Secrets? then Held(requests[n].internalPasswords, requests[n].bootstraps)
      else SecretsAfter(start, requests[..n])
  }

  /**
   Each use was answered, in order: with a client of the credential the Secrets held for
   its namespace at that moment, or a failure, which for the operator's own namespace
   means an unreadable Secret or none.
   */
  ghost predicate Answered(start: Held, endpointNamespace: string, reliable: bool, requests: seq<Request>,
                           served: seq<Service>)
  {
    if requests == [] then served == []
    else
      var n, m := |requests| - 1, |served| - 1;
      if requests[n].Use? then
        && m >= 0 && Answered(start, endpointNamespace, reliable, requests[..n], served[..m])
        && Answer(SecretsAfter(start, requests[..n]), endpointNamespace, reliable, requests[n].namespace, served[m])
      else Answered(start, endpointNamespace, reliable, requests[..n], served)
  }

  predicate Answer(held: Held, endpointNamespace: string, reliable: bool, namespace: string, service: Service) {
    && service.namespace == namespace
    && match service.client
       case Success(api) =>
         || (namespace == endpointNamespace && held.Internal(namespace) == Some(api.credentials))
         || held.Bootstrap(namespace) == Some(api.credentials)
       case Failure(_) => reliable && namespace == endpointNamespace ==> held.Bootstrap(namespace).None?
  }

  /** Probes are only added, so what was accepted stays so. */
  lemma AcceptedStays(probes: seq<Probe>, tenantProbes: seq<Probe>, moreProbes: seq<Probe>,
                      moreTenantProbes: seq<Probe>, api: Api)
    requires probes <= moreProbes && tenantProbes <= moreTenantProbes && AcceptedBy(probes + tenantProbes, api)
    ensures AcceptedBy(moreProbes + moreTenantProbes, api)
  {
    var p :| p in probes + tenantProbes && p.api == api && p.accepted;
    assert p in moreProbes + moreTenantProbes;
  }

  /** After a service everything served before is still vouched for. */
  twostate lemma StillVouched(registry: Registry)
    requires old(registry.Vouched())
    requires forall service :: service in old(registry.served) ==>
               && old(service.provider.probes) <= service.provider.probes
               && old(service.provider.tenantProbes) <= service.provider.tenantProbes
    ensures forall service :: service in old(registry.served) ==> registry.VouchedFor(service)
  {
    forall service | service in old(registry.served)
      ensures registry.VouchedFor(service)
    {
      var p := service.provider;
      assert old(registry.VouchedFor(service));
      if service.client.Success? && AcceptedBy(old(p.probes + p.tenantProbes), service.client.value) {
        AcceptedStays(old(p.probes), old(p.tenantProbes), p.probes, p.tenantProbes, service.client.value);
      }
    }
  }

  /**
   Over any run of requests, with Secrets changing in between and namespaces
   forgotten or idle: each use of a namespace gets a client of the credential in a
   Secret at that moment; one of the internal account, or a tenant's, was accepted by
   Keycloak; and no provider ever serves two namespaces.
   */
  method Serve(registry: Registry, cluster: Cluster, requests: seq<Request>)
    requires registry.providers == map[] && registry.loans == [] && registry.served == []
    requires OtherNames(cluster.bootstraps)
    requires forall q :: q in requests && q.Secrets? ==> OtherNames(q.bootstraps)
    modifies registry, cluster
    ensures registry.Sound(cluster.clock) && registry.Matched()
    ensures Answered(old(cluster.Secrets()), registry.endpointNamespace, cluster.reliable, requests, registry.served)
    ensures registry.Vouched()
    ensures forall a, b :: a in registry.served && b in registry.served && a.namespace != b.namespace ==>
              a.provider != b.provider
  {
    hide Provider.Numbered, Provider.Throttled, Provider.Trusted, Provider.Accepted, Provider.Current;
    ghost var start := cluster.Secrets();
    for n := 0 to |requests|
      invariant registry.Sound(cluster.clock) && fresh(registry.Providers()) && OtherNames(cluster.bootstraps)
      invariant cluster.Secrets() == SecretsAfter(start, requests[..n])
      invariant Answered(start, registry.endpointNamespace, cluster.reliable, requests[..n], registry.served)
      invariant registry.Matched() && registry.Vouched()
      invariant forall service :: service in registry.served ==> fresh(service.provider)
    {
      assert requests[..n + 1][..n] == requests[..n];
      ghost var before := registry.Providers();
      match requests[n]
      case Use(namespace) =>
        ServeOne(registry, cluster, namespace);
        assert registry.Providers() <= before + (registry.Providers() - before);
      case Forget(namespace) =>
        registry.Forget(namespace);
        assert registry.Providers() <= before;
      case Secrets(internalPasswords, bootstraps) =>
        assert requests[n] in requests;
        cluster.internalPasswords, cluster.bootstraps := internalPasswords, bootstraps;
    }
    assert requests[..|requests|] == requests;
  }

  /** One use of a namespace, with its entry in the record. */
  method ServeOne(registry: Registry, cluster: Cluster, namespace: string)
    requires registry.Sound(cluster.clock) && BootstrapsAreOthers(cluster)
    requires registry.Matched() && registry.Vouched()
    modifies registry`providers, registry`loans, registry`served, registry.Providers(), cluster`clock
    ensures registry.Sound(cluster.clock) && registry.Matched() && registry.Vouched()
    ensures fresh(registry.Providers() - old(registry.Providers()))
    ensures |registry.served| == |old(registry.served)| + 1
    ensures registry.served[..|old(registry.served)|] == old(registry.served)
    ensures Answer(cluster.Secrets(), registry.endpointNamespace, cluster.reliable, namespace,
                   registry.served[|old(registry.served)|])
    ensures var provider := registry.served[|old(registry.served)|].provider;
            provider in old(registry.Providers()) || fresh(provider)
  {
    hide Provider.Numbered, Provider.Throttled, Provider.Trusted, Provider.Accepted;
    ghost var earlier := registry.served;
    var provider, r := ClientFor(registry, cluster, namespace);
    forall service | service in earlier
      ensures old(service.provider.probes) <= service.provider.probes
      ensures old(service.provider.tenantProbes) <= service.provider.tenantProbes
    {
      var p := service.provider;
      if p !in old(registry.Providers()) {
        assert unchanged(p);
      }
    }
    StillVouched(registry);
    registry.served := earlier + [Service(namespace, provider, r)];
    assert registry.VouchedFor(Service(namespace, provider, r));
  }
}
