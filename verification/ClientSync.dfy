/** Making a Keycloak client match its declaration: declared fields are set, mappers, scopes and roles only added. */
module ClientSync {
  import opened Wrappers
  import opened Sequences
  import opened Merge
  import opened UserStore
  import opened ClientStore

  datatype Mapper = Mapper(name: string, protocol: string, protocolMapper: string, config: map<string, string>)

  datatype ClientSpec = ClientSpec(
    clientID: string, name: string, description: string, rootURL: string,
    enabled: Option<bool>, publicClient: bool, standardFlow: Option<bool>, directAccess: bool,
    allowClientCredentials: bool,
    redirectUris: Option<seq<string>>, webOrigins: Option<seq<string>>, attributes: Option<map<string, string>>,
    mappers: Option<seq<Mapper>>, defaultScopes: Option<seq<string>>, optionalScopes: Option<seq<string>>,
    serviceAccountRoles: Option<map<string, seq<string>>>)

  datatype ClientResult = ClientResult(created: bool, updated: bool)

  datatype ClientError =
    RequestFailed | ServiceAccountDisabled | NoServiceAccount | MissingClient | MissingRole | MissingScope

  const OPENID_CONNECT := "openid-connect"

  function BoolValue(value: Option<bool>, fallback: bool): bool { if value.Some? then value.value else fallback }

  function Texts(values: seq<string>): Json {
    List(seq(|values|, i requires 0 <= i < |values| => Text(values[i])))
  }

  function TextMap(values: map<string, string>): Json {
    Object(map key | key in values :: Text(values[key]))
  }

  function IfGiven<T>(value: Option<T>, render: T -> Json): Option<Json> {
    if value.Some? then Some(render(value.value)) else None
  }

  /** The fields of a declared client in the order they are set; none where the declaration says nothing. */
  function ClientFields(spec: ClientSpec, secret: string): seq<(string, Option<Json>)> {
    [("clientId", Some(Text(spec.clientID))),
     ("protocol", Some(Text(OPENID_CONNECT))),
     ("enabled", Some(Bool(BoolValue(spec.enabled, true)))),
     ("publicClient", Some(Bool(spec.publicClient))),
     ("standardFlowEnabled", Some(Bool(BoolValue(spec.standardFlow, true)))),
     ("directAccessGrantsEnabled", Some(Bool(spec.directAccess))),
     ("serviceAccountsEnabled", Some(Bool(spec.allowClientCredentials))),
     ("name", IfSet(spec.name)),
     ("description", IfSet(spec.description)),
     ("rootUrl", IfSet(spec.rootURL)),
     ("redirectUris", IfGiven(spec.redirectUris, Texts)),
     ("webOrigins", IfGiven(spec.webOrigins, Texts)),
     ("attributes", IfGiven(spec.attributes, TextMap)),
     ("secret", IfSet(if spec.publicClient then "" else secret))]
  }

  function DesiredClient(spec: ClientSpec, secret: string): (r: Json)
    ensures r.Object?
  {
    Object(FieldsOf(ClientFields(spec, secret)))
  }

  function DesiredMapper(mapper: Mapper): (r: Json)
    ensures r.Object? && "name" in r.fields && r.fields["name"] == Text(mapper.name)
  {
    Object(map["name" := Text(mapper.name),
               "protocol" := Text(if mapper.protocol == "" then OPENID_CONNECT else mapper.protocol),
               "protocolMapper" := Text(mapper.protocolMapper),
               "config" := TextMap(mapper.config)])
  }

  // ----- what is declared, and when it is there -----

  /** The field holds the text. */
  ghost predicate HasText(live: Json, key: string, value: string)
    requires live.Object?
  {
    key in live.fields && live.fields[key] == Text(value)
  }

  ghost predicate HasBool(live: Json, key: string, value: bool)
    requires live.Object?
  {
    key in live.fields && live.fields[key] == Bool(value)
  }

  /** The field is the list of these texts, in order. */
  ghost predicate HasTexts(live: Json, key: string, values: seq<string>)
    requires live.Object?
  {
    && key in live.fields && live.fields[key].List? && |live.fields[key].items| == |values|
    && forall i :: 0 <= i < |values| ==> live.fields[key].items[i] == Text(values[i])
  }

  /** The field is an object in which each of these keys has its text. */
  ghost predicate HasSettings(live: Json, key: string, values: map<string, string>)
    requires live.Object?
  {
    && key in live.fields && live.fields[key].Object?
    && forall k :: k in values ==> HasText(live.fields[key], k, values[k])
  }

  /**
   The client is as declared: switches that are left out are on by default or off, empty
   texts and lists that are left out say nothing, and only confidential clients have a secret.
   */
  ghost predicate ClientAsDeclared(live: Json, spec: ClientSpec, secret: string)
    requires live.Object?
  {
    SwitchesAsDeclared(live, spec) && RestAsDeclared(live, spec, secret)
  }

  ghost predicate SwitchesAsDeclared(live: Json, spec: ClientSpec)
    requires live.Object?
  {
    && HasText(live, "clientId", spec.clientID) && HasText(live, "protocol", "openid-connect")
    && HasBool(live, "enabled", spec.enabled != Some(false))
    && HasBool(live, "standardFlowEnabled", spec.standardFlow != Some(false))
    && HasBool(live, "publicClient", spec.publicClient)
    && HasBool(live, "directAccessGrantsEnabled", spec.directAccess)
    && HasBool(live, "serviceAccountsEnabled", spec.allowClientCredentials)
  }

  ghost predicate RestAsDeclared(live: Json, spec: ClientSpec, secret: string)
    requires live.Object?
  {
    && (spec.name != "" ==> HasText(live, "name", spec.name))
    && (spec.description != "" ==> HasText(live, "description", spec.description))
    && (spec.rootURL != "" ==> HasText(live, "rootUrl", spec.rootURL))
    && (spec.redirectUris.Some? ==> HasTexts(live, "redirectUris", spec.redirectUris.value))
    && (spec.webOrigins.Some? ==> HasTexts(live, "webOrigins", spec.webOrigins.value))
    && (spec.attributes.Some? ==> HasSettings(live, "attributes", spec.attributes.value))
    && (!spec.publicClient && secret != "" ==> HasText(live, "secret", secret))
  }

  /** The keys whose value the declaration decides; below `attributes` it decides only its own. */
  ghost predicate Decides(spec: ClientSpec, secret: string, key: string) {
    || key in {"clientId", "protocol", "enabled", "standardFlowEnabled", "publicClient",
               "directAccessGrantsEnabled", "serviceAccountsEnabled"}
    || (key == "name" && spec.name != "") || (key == "description" && spec.description != "")
    || (key == "rootUrl" && spec.rootURL != "") || (key == "secret" && secret != "" && !spec.publicClient)
    || (key == "redirectUris" && spec.redirectUris.Some?) || (key == "webOrigins" && spec.webOrigins.Some?)
    || (key == "attributes" && spec.attributes.Some?)
  }

  /** All fields the declaration does not decide are still there, and so are all attributes it does not name. */
  ghost predicate RestKept(before: Json, after: Json, spec: ClientSpec, secret: string)
    requires before.Object? && after.Object?
  {
    && (forall key :: key in before.fields && !Decides(spec, secret, key) ==> FieldKept(before, after, key))
    && (spec.attributes.Some? && "attributes" in before.fields && before.fields["attributes"].Object? ==>
          && "attributes" in after.fields && after.fields["attributes"].Object?
          && forall key :: key in before.fields["attributes"].fields && key !in spec.attributes.value ==>
               FieldKept(before.fields["attributes"], after.fields["attributes"], key))
  }

  /** Fields and settings that no declared mapper of this name decides are still there. */
  ghost predicate MapperRestKept(before: Json, after: Json, declared: seq<Mapper>)
    requires before.Object? && after.Object?
  {
    && (forall key :: key in before.fields && key !in {"name", "protocol", "protocolMapper", "config"} ==>
          FieldKept(before, after, key))
    && ("config" in before.fields && before.fields["config"].Object? ==>
          && "config" in after.fields && after.fields["config"].Object?
          && forall key :: key in before.fields["config"].fields && Unmentioned(before, declared, key) ==>
               FieldKept(before.fields["config"], after.fields["config"], key))
  }

  /** No declared mapper of this name has the setting. */
  ghost predicate Unmentioned(live: Json, declared: seq<Mapper>, key: string) {
    forall m :: m in declared && m.name == StringValue(live, "name") ==> key !in m.config
  }

  /** The mapper is as declared; its protocol is OpenID Connect unless another is. */
  ghost predicate MapperAsDeclared(live: Json, mapper: Mapper)
    requires live.Object?
  {
    && HasText(live, "name", mapper.name) && HasText(live, "protocolMapper", mapper.protocolMapper)
    && HasText(live, "protocol", if mapper.protocol != "" then mapper.protocol else "openid-connect")
    && HasSettings(live, "config", mapper.config)
  }

  lemma TextsAre(live: Json, key: string, values: seq<string>)
    requires live.Object?
    ensures Shows(live, key, Texts(values)) <==> HasTexts(live, key, values)
  {
    if HasTexts(live, key, values) {
      assert live.fields[key].items == Texts(values).items;
    }
  }

  lemma SettingsAre(live: Json, key: string, values: map<string, string>)
    requires live.Object?
    ensures Shows(live, key, TextMap(values)) <==> HasSettings(live, key, values)
  {
  }

  lemma ClientKeysDiffer(spec: ClientSpec, secret: string)
    ensures |ClientFields(spec, secret)| == 14 && KeysDiffer(ClientFields(spec, secret))
  {
    hide IfSet, IfGiven, BoolValue;
    var fields := ClientFields(spec, secret);
    assert |fields[0].0| == 8 && fields[0].0[0] == 'c';
    assert |fields[1].0| == 8 && fields[1].0[0] == 'p';
    assert |fields[2].0| == 7 && fields[2].0[0] == 'e';
    assert |fields[3].0| == 12 && fields[3].0[0] == 'p';
    assert |fields[4].0| == 19 && |fields[5].0| == 25 && |fields[6].0| == 22 && |fields[7].0| == 4;
    assert |fields[8].0| == 11;
    assert |fields[9].0| == 7 && fields[9].0[0] == 'r';
    assert |fields[10].0| == 12 && fields[10].0[0] == 'r';
    assert |fields[11].0| == 10 && fields[11].0[0] == 'w';
    assert |fields[12].0| == 10 && fields[12].0[0] == 'a';
    assert |fields[13].0| == 6;
  }

  lemma SwitchesMean(live: Json, spec: ClientSpec, secret: string)
    requires live.Object?
    ensures (forall i :: 0 <= i < 7 ==> FieldShown(live, ClientFields(spec, secret)[i])) <==>
              SwitchesAsDeclared(live, spec)
  {
    hide Within, Texts, TextMap, IfGiven;
    var fields := ClientFields(spec, secret);
    assert fields[..7] == [fields[0], fields[1], fields[2], fields[3], fields[4], fields[5], fields[6]];
  }

  /** The fields sent for a client, one by one. */
  lemma ClientFieldsMean(live: Json, spec: ClientSpec, secret: string)
    requires live.Object?
    ensures (forall i :: 0 <= i < |ClientFields(spec, secret)| ==> FieldShown(live, ClientFields(spec, secret)[i])) <==>
              ClientAsDeclared(live, spec, secret)
  {
    hide Within, Texts, TextMap, HasTexts, HasSettings, SwitchesAsDeclared, HasBool, BoolValue;
    var fields := ClientFields(spec, secret);
    SwitchesMean(live, spec, secret);
    if spec.redirectUris.Some? { TextsAre(live, "redirectUris", spec.redirectUris.value); }
    if spec.webOrigins.Some? { TextsAre(live, "webOrigins", spec.webOrigins.value); }
    if spec.attributes.Some? { SettingsAre(live, "attributes", spec.attributes.value); }
    assert fields[7..] == [fields[7], fields[8], fields[9], fields[10], fields[11], fields[12], fields[13]];
  }

  lemma DecidesMeans(spec: ClientSpec, secret: string, key: string)
    ensures key in FieldsOf(ClientFields(spec, secret)) ==> Decides(spec, secret, key)
  {
    hide FieldsOf;
    ClientKeysDiffer(spec, secret);
    FieldsAre(ClientFields(spec, secret));
  }

  /** A client that keeps the merged fields has lost none that the declaration leaves open. */
  lemma ClientRestKept(before: Json, after: Json, spec: ClientSpec, secret: string)
    requires before.Object? && after.Object? && Within(Merged(before, DesiredClient(spec, secret)), after)
    ensures RestKept(before, after, spec, secret)
  {
    hide Decides, Within, Merged, FieldsOf, FieldKept, ClientFields;
    MergedFieldsKept(before, DesiredClient(spec, secret), after);
    forall key
      ensures key in DesiredClient(spec, secret).fields ==> Decides(spec, secret, key)
    {
      DecidesMeans(spec, secret, key);
    }
    if spec.attributes.Some? {
      AttributesAreSent(spec, secret);
    }
  }

  lemma AttributesAreSent(spec: ClientSpec, secret: string)
    requires spec.attributes.Some?
    ensures var fields := DesiredClient(spec, secret).fields;
            && "attributes" in fields && fields["attributes"].Object?
            && fields["attributes"].fields.Keys == spec.attributes.value.Keys
  {
    hide FieldsOf;
    var fields := ClientFields(spec, secret);
    ClientKeysDiffer(spec, secret);
    FieldsAre(fields);
    assert fields[12] == ("attributes", Some(TextMap(spec.attributes.value)));
  }

  /** What is sent for a client asks for exactly what is declared. */
  lemma DesiredClientMeans(live: Json, spec: ClientSpec, secret: string)
    requires live.Object?
    ensures Within(DesiredClient(spec, secret), live) <==> ClientAsDeclared(live, spec, secret)
  {
    hide Within, ClientFields, ClientAsDeclared;
    ClientKeysDiffer(spec, secret);
    WithinFields(ClientFields(spec, secret), live);
    ClientFieldsMean(live, spec, secret);
  }

  lemma DesiredMapperMeans(live: Json, mapper: Mapper)
    requires live.Object?
    ensures Within(DesiredMapper(mapper), live) <==> MapperAsDeclared(live, mapper)
  {
    var desired := DesiredMapper(mapper);
    SettingsAre(live, "config", mapper.config);
  }

  function LastIndex(names: seq<string>, name: string): (r: Option<nat>)
    ensures r.Some? ==> r.value < |names| && names[r.value] == name
    ensures r.None? ==> name !in names
  {
    if names == [] then None
    else if names[|names| - 1] == name then Some(|names| - 1)
    else LastIndex(names[..|names| - 1], name)
  }

  /** The last mapper of that name has every declared field. */
  ghost predicate MapperApplied(mappers: seq<Json>, mapper: Mapper) {
    var i := LastIndex(NamesOf(mappers), mapper.name);
    i.Some? && mappers[i.value].Object? && MapperAsDeclared(mappers[i.value], mapper)
  }

  ghost predicate MappersApplied(mappers: seq<Json>, declared: seq<Mapper>) {
    forall m :: m in declared ==> MapperApplied(mappers, m)
  }

  ghost predicate RolesApplied(granted: map<string, set<string>>, declared: map<string, seq<string>>) {
    forall owner :: owner in declared ==> Names(declared[owner]) <= RolesOf(granted, owner)
  }

  /** Roles are only added. */
  ghost predicate RolesKept(before: map<string, set<string>>, after: map<string, set<string>>) {
    forall owner :: RolesOf(before, owner) <= RolesOf(after, owner)
  }

  /**
   Mappers keep their places and names, the ones of no declared name their content, and the
   others what the declaration does not mention.
   */
  ghost predicate MappersKept(before: seq<Json>, after: seq<Json>, declared: seq<Mapper>) {
    && |before| <= |after| && NamesOf(after)[..|before|] == NamesOf(before)
    && (forall i :: 0 <= i < |before| && NamesOf(before)[i] !in MapperNames(declared) ==> after[i] == before[i])
    && RestsKept(before, after, declared)
  }

  ghost predicate RestsKept(before: seq<Json>, after: seq<Json>, declared: seq<Mapper>) {
    forall i :: 0 <= i < |before| && i < |after| && before[i].Object? && after[i].Object? ==>
      MapperRestKept(before[i], after[i], declared)
  }

  function MapperNames(declared: seq<Mapper>): (names: seq<string>)
    ensures |names| == |declared| && forall i :: 0 <= i < |names| ==> names[i] == declared[i].name
  {
    seq(|declared|, i requires 0 <= i < |declared| => declared[i].name)
  }

  function DeclaredMappers(spec: ClientSpec): seq<Mapper> { if spec.mappers.Some? then spec.mappers.value else [] }
  function DeclaredScopes(list: Option<seq<string>>): set<string> { if list.Some? then Names(list.value) else {} }
  function DeclaredRoles(spec: ClientSpec): map<string, seq<string>> {
    if spec.serviceAccountRoles.Some? then spec.serviceAccountRoles.value else map[]
  }

  /** Mapper names do not repeat, and no scope is declared with both kinds. */
  ghost predicate WellPosed(spec: ClientSpec) {
    && AllDifferent(MapperNames(DeclaredMappers(spec)))
    && DeclaredScopes(spec.defaultScopes) !! DeclaredScopes(spec.optionalScopes)
  }

  // ----- mappers -----

  /** The position of the last mapper of each name. */
  method IndexByName(mappers: seq<Json>) returns (byName: map<string, nat>)
    ensures forall name :: LastIndex(NamesOf(mappers), name) == if name in byName then Some(byName[name]) else None
  {
    byName := map[];
    for i := 0 to |mappers|
      invariant forall name ::
                  LastIndex(NamesOf(mappers[..i]), name) == if name in byName then Some(byName[name]) else None
    {
      assert NamesOf(mappers[..i + 1])[..i] == NamesOf(mappers[..i]);
      byName := byName[StringValue(mappers[i], "name") := i];
    }
    assert mappers[..|mappers|] == mappers;
  }

  /** Updating the last mapper of a name applies that declaration and disturbs no other. */
  lemma MapperUpdated(before: seq<Json>, i: nat, kept: Json, mapper: Mapper)
    requires LastIndex(NamesOf(before), mapper.name) == Some(i) && kept.Object? && Within(DesiredMapper(mapper), kept)
    ensures NamesOf(before[i := kept]) == NamesOf(before) && MapperApplied(before[i := kept], mapper)
    ensures forall m: Mapper :: m.name != mapper.name && MapperApplied(before, m) ==>
              MapperApplied(before[i := kept], m)
  {
    DesiredMapperMeans(kept, mapper);
    assert NamesOf(before[i := kept]) == NamesOf(before);
  }

  lemma MapperCreated(before: seq<Json>, kept: Json, mapper: Mapper)
    requires kept.Object? && Within(DesiredMapper(mapper), kept)
    ensures NamesOf(before + [kept]) == NamesOf(before) + [mapper.name] && MapperApplied(before + [kept], mapper)
    ensures forall m: Mapper :: m.name != mapper.name && MapperApplied(before, m) ==> MapperApplied(before + [kept], m)
  {
    DesiredMapperMeans(kept, mapper);
    var names := NamesOf(before + [kept]);
    assert names == NamesOf(before) + [mapper.name];
    assert names[..|before|] == NamesOf(before);
  }

  lemma RestsStay(mappers: seq<Json>, declared: seq<Mapper>)
    ensures RestsKept(mappers, mappers, declared)
  {
    forall i | 0 <= i < |mappers| && mappers[i].Object?
      ensures MapperRestKept(mappers[i], mappers[i], declared)
    {
      FieldsStay(mappers[i]);
      if "config" in mappers[i].fields && mappers[i].fields["config"].Object? {
        FieldsStay(mappers[i].fields["config"]);
      }
    }
  }

  /** With more declared, less has to be kept. */
  lemma RestsKeptMore(before: seq<Json>, after: seq<Json>, fewer: seq<Mapper>, more: seq<Mapper>)
    requires RestsKept(before, after, fewer) && forall m :: m in fewer ==> m in more
    ensures RestsKept(before, after, more)
  {
    hide FieldKept;
    forall i | 0 <= i < |before| && i < |after| && before[i].Object? && after[i].Object?
      ensures MapperRestKept(before[i], after[i], more)
    {
      assert MapperRestKept(before[i], after[i], fewer);
      assert forall key :: Unmentioned(before[i], more, key) ==> Unmentioned(before[i], fewer, key);
    }
  }

  /** An update with merged fields keeps what is not declared of the mapper. */
  lemma UpdateKeepsRest(before: Json, mapper: Mapper, kept: Json, declared: seq<Mapper>)
    requires before.Object? && kept.Object? && Within(Merged(before, DesiredMapper(mapper)), kept)
    requires mapper in declared && StringValue(before, "name") == mapper.name
    ensures MapperRestKept(before, kept, declared)
  {
    hide FieldKept, Within, Merged;
    MergedFieldsKept(before, DesiredMapper(mapper), kept);
    assert DesiredMapper(mapper).fields.Keys == {"name", "protocol", "protocolMapper", "config"};
  }

  /** After `i` declared mappers, from the list `before`. */
  ghost predicate MappersDone(before: seq<Json>, now: seq<Json>, declared: seq<Mapper>, i: nat)
    requires i <= |declared|
  {
    && MappersKept(before, now, declared[..i])
    && (forall k :: |before| <= k < |now| ==> NamesOf(now)[k] !in NamesOf(before))
    && (AllDifferent(MapperNames(declared)) ==> forall k :: 0 <= k < i ==> MapperApplied(now, declared[k]))
  }

  lemma {:induction false} LastIndexExtended(names: seq<string>, longer: seq<string>, name: string)
    requires |names| <= |longer| && longer[..|names|] == names && name !in longer[|names|..]
    ensures LastIndex(longer, name) == LastIndex(names, name)
    decreases |longer|
  {
    if |longer| == |names| {
      assert longer == names;
    } else {
      var shorter := longer[..|longer| - 1];
      assert longer[|longer| - 1] == longer[|names|..][|longer| - |names| - 1];
      assert shorter[..|names|] == names;
      forall k | 0 <= k < |shorter| - |names|
        ensures shorter[|names|..][k] != name
      {
        assert longer[|names|..][k] == shorter[|names|..][k];
      }
      LastIndexExtended(names, shorter, name);
    }
  }

  /** The mappers created so far do not hide the last one of a name listed at the start. */
  lemma SameLast(before: seq<Json>, now: seq<Json>, declared: seq<Mapper>, i: nat, name: string)
    requires i <= |declared| && MappersDone(before, now, declared, i) && LastIndex(NamesOf(before), name).Some?
    ensures LastIndex(NamesOf(now), name) == LastIndex(NamesOf(before), name)
  {
    hide MapperApplied, AllDifferent;
    LastIndexExtended(NamesOf(before), NamesOf(now), name);
  }

  lemma EarlierNames(declared: seq<Mapper>, i: nat)
    requires i < |declared|
    ensures MapperNames(declared[..i + 1]) == MapperNames(declared[..i]) + [declared[i].name]
    ensures AllDifferent(MapperNames(declared)) ==> declared[i].name !in MapperNames(declared[..i])
    ensures AllDifferent(MapperNames(declared)) ==> forall k :: 0 <= k < i ==> declared[k].name != declared[i].name
  {
    var names := MapperNames(declared);
    assert forall k :: 0 <= k < i ==> names[k] == declared[k].name;
  }

  lemma StepUpdated(before: seq<Json>, now: seq<Json>, declared: seq<Mapper>, i: nat, p: nat, kept: Json)
    requires i < |declared| && MappersDone(before, now, declared, i)
    requires LastIndex(NamesOf(before), declared[i].name) == Some(p) && kept.Object?
             && Within(DesiredMapper(declared[i]), kept)
    requires before[p].Object? && Within(Merged(before[p], DesiredMapper(declared[i])), kept)
    ensures MappersDone(before, now[p := kept], declared, i + 1)
  {
    hide MapperApplied, AllDifferent, Within, LastIndex, MapperRestKept, Merged;
    FewerBefore(declared, i);
    RestsKeptMore(before, now, declared[..i], declared[..i + 1]);
    UpdateKeepsRest(before[p], declared[i], kept, declared[..i + 1]);
    SameLast(before, now, declared, i, declared[i].name);
    EarlierNames(declared, i);
    MapperUpdated(now, p, kept, declared[i]);
  }

  lemma StepCreated(before: seq<Json>, now: seq<Json>, declared: seq<Mapper>, i: nat, kept: Json)
    requires i < |declared| && MappersDone(before, now, declared, i)
    requires LastIndex(NamesOf(before), declared[i].name) == None && kept.Object?
             && Within(DesiredMapper(declared[i]), kept)
    ensures MappersDone(before, now + [kept], declared, i + 1)
  {
    hide MapperApplied, AllDifferent, Within, MapperRestKept;
    FewerBefore(declared, i);
    RestsKeptMore(before, now, declared[..i], declared[..i + 1]);
    EarlierNames(declared, i);
    MapperCreated(now, kept, declared[i]);
  }

  lemma StepUnchanged(before: seq<Json>, now: seq<Json>, declared: seq<Mapper>, i: nat, p: nat)
    requires i < |declared| && MappersDone(before, now, declared, i)
    requires LastIndex(NamesOf(before), declared[i].name) == Some(p)
    requires before[p].Object? && Within(DesiredMapper(declared[i]), before[p])
    ensures MappersDone(before, now, declared, i + 1)
  {
    hide AllDifferent, Within, LastIndex, MapperRestKept, MapperAsDeclared;
    DesiredMapperMeans(before[p], declared[i]);
    FewerBefore(declared, i);
    RestsKeptMore(before, now, declared[..i], declared[..i + 1]);
    SameLast(before, now, declared, i, declared[i].name);
    EarlierNames(declared, i);
  }

  lemma FewerBefore(declared: seq<Mapper>, i: nat)
    requires i < |declared|
    ensures declared[i] in declared[..i + 1] && forall m :: m in declared[..i] ==> m in declared[..i + 1]
  {
    assert declared[..i + 1] == declared[..i] + [declared[i]];
  }

  lemma MappersKeptSoFar(before: seq<Json>, now: seq<Json>, declared: seq<Mapper>, i: nat)
    requires i <= |declared| && MappersDone(before, now, declared, i)
    ensures MappersKept(before, now, declared)
    ensures i == |declared| && AllDifferent(MapperNames(declared)) ==> MappersApplied(now, declared)
  {
    hide AllDifferent, MapperApplied, MapperRestKept;
    RestsKeptMore(before, now, declared[..i], declared);
    assert forall n :: n in MapperNames(declared[..i]) ==> n in MapperNames(declared) by {
      assert forall k :: 0 <= k < i ==> MapperNames(declared[..i])[k] == MapperNames(declared)[k];
    }
  }

  method ReconcileProtocolMappers(client: Client, declared: Option<seq<Mapper>>) returns (r: Result<bool, ClientError>)
    requires client.Valid() && client.live.Some?
    modifies client`mappers, client`writes
    ensures client.Valid() && client.writes >= old(client.writes)
    ensures MappersKept(old(client.mappers), client.mappers, if declared.Some? then declared.value else [])
    ensures r.Success? ==> (r.value <==> client.writes > old(client.writes))
    ensures r.Success? && declared.Some? && AllDifferent(MapperNames(declared.value)) ==>
              MappersApplied(client.mappers, declared.value)
    ensures declared.Some? ==> (MappersApplied(old(client.mappers), declared.value) ==>
              client.mappers == old(client.mappers) && client.writes == old(client.writes))
    ensures declared.None? ==> client.mappers == old(client.mappers) && client.writes == old(client.writes)
    ensures r.Success? && declared.Some? && client.writes == old(client.writes) ==>
              MappersApplied(old(client.mappers), declared.value)
    ensures client.writes == old(client.writes) ==> client.mappers == old(client.mappers)
    ensures client.reliable ==> r.Success?
  {
    hide MappersApplied, MapperApplied, AppliedUpTo, MappersDone, MappersKept, Within, AllDifferent, LastIndex,
         NamesOf, MapperNames, DesiredMapper;
    NothingDone(client.mappers, if declared.Some? then declared.value else []);
    if declared.None? {
      return Success(false);
    }
    var ok, live := client.ListProtocolMappers();
    if !ok {
      return Failure(RequestFailed);
    }
    var byName := IndexByName(live);
    AppliedThroughout(live, declared.value);
    var changed := false;
    for i := 0 to |declared.value|
      invariant client.Valid() && client.writes >= old(client.writes)
      invariant MappersDone(live, client.mappers, declared.value, i)
      invariant changed <==> client.writes > old(client.writes)
      invariant !changed ==> client.mappers == live && AppliedUpTo(live, declared.value, i)
      invariant MappersApplied(live, declared.value) ==> client.mappers == live && client.writes == old(client.writes)
    {
      var mapper := declared.value[i];
      var want := DesiredMapper(mapper);
      ghost var now := client.mappers;
      AppliedNext(live, declared.value, i);
      AppliedAt(live, mapper, if mapper.name in byName then Some(byName[mapper.name]) else None);
      if mapper.name !in byName {
        MappersKeptSoFar(live, now, declared.value, i);
        ok := client.CreateProtocolMapper(want);
        if client.mappers != now {
          assert client.mappers == now + [client.mappers[|now|]];
          StepCreated(live, now, declared.value, i, client.mappers[|now|]);
          MappersKeptSoFar(live, client.mappers, declared.value, i + 1);
        }
        if !ok {
          return Failure(RequestFailed);
        }
        changed := true;
        continue;
      }
      var p := byName[mapper.name];
      assert LastIndex(NamesOf(live), mapper.name) == Some(p);
      PlaceExists(live, now, declared.value, i, mapper.name);
      var current := live[p];
      var merged := Merged(current, want);
      MergeChangesNothingIff(current, want);
      if merged == current {
        StepUnchanged(live, now, declared.value, i, p);
        continue;
      }
      MappersKeptSoFar(live, now, declared.value, i);
      ok := client.UpdateProtocolMapper(p, merged);
      if Within(merged, client.mappers[p]) && client.mappers == now[p := client.mappers[p]] {
        KeptMergeIsSettled(current, want, client.mappers[p]);
        StepUpdated(live, now, declared.value, i, p, client.mappers[p]);
        MappersKeptSoFar(live, client.mappers, declared.value, i + 1);
      }
      if !ok {
        return Failure(RequestFailed);
      }
      changed := true;
    }
    MappersKeptSoFar(live, client.mappers, declared.value, |declared.value|);
    AppliedThroughout(live, declared.value);
    return Success(changed);
  }

  ghost predicate AppliedUpTo(mappers: seq<Json>, declared: seq<Mapper>, i: nat)
    requires i <= |declared|
  {
    forall k :: 0 <= k < i ==> MapperApplied(mappers, declared[k])
  }

  lemma AppliedNext(mappers: seq<Json>, declared: seq<Mapper>, i: nat)
    requires i < |declared|
    ensures MappersApplied(mappers, declared) ==> MapperApplied(mappers, declared[i])
    ensures AppliedUpTo(mappers, declared, i) && MapperApplied(mappers, declared[i]) ==>
              AppliedUpTo(mappers, declared, i + 1)
  {
  }

  lemma AppliedAt(mappers: seq<Json>, mapper: Mapper, p: Option<nat>)
    requires LastIndex(NamesOf(mappers), mapper.name) == p && AllObjects(mappers)
    ensures MapperApplied(mappers, mapper) <==>
              p.Some? && Within(DesiredMapper(mapper), mappers[p.value])
  {
    if p.Some? {
      DesiredMapperMeans(mappers[p.value], mapper);
    }
  }

  lemma AppliedThroughout(mappers: seq<Json>, declared: seq<Mapper>)
    ensures AppliedUpTo(mappers, declared, 0)
    ensures AppliedUpTo(mappers, declared, |declared|) <==> MappersApplied(mappers, declared)
  {
    assert forall m :: m in declared <==> exists k :: 0 <= k < |declared| && declared[k] == m;
  }

  lemma NothingDone(mappers: seq<Json>, declared: seq<Mapper>)
    ensures MappersDone(mappers, mappers, declared, 0) && MappersKept(mappers, mappers, declared)
  {
    hide MapperRestKept;
    RestsStay(mappers, declared);
    RestsStay(mappers, declared[..0]);
  }

  lemma PlaceExists(before: seq<Json>, now: seq<Json>, declared: seq<Mapper>, i: nat, name: string)
    requires i <= |declared| && MappersDone(before, now, declared, i) && LastIndex(NamesOf(before), name).Some?
    ensures LastIndex(NamesOf(before), name).value < |before| <= |now|
  {
    hide MapperApplied, AllDifferent;
  }

  // ----- scopes -----

  function Other(kind: Kind): Kind { if kind.Default? then Optional else Default }

  method ReconcileClientScopes(client: Client, kind: Kind, declared: Option<seq<string>>)
    returns (r: Result<bool, ClientError>)
    requires client.Valid() && client.live.Some?
    modifies client`defaults, client`optionals, client`writes
    ensures client.Valid() && client.writes >= old(client.writes)
    ensures old(client.Scopes(kind)) <= client.Scopes(kind)
    ensures client.Scopes(Other(kind)) <= old(client.Scopes(Other(kind)))
              <= client.Scopes(Other(kind)) + (DeclaredScopes(declared) * client.Scopes(kind))
    ensures r.Success? ==> (r.value <==> client.writes > old(client.writes))
    ensures r.Success? ==> DeclaredScopes(declared) <= client.Scopes(kind)
    ensures DeclaredScopes(declared) <= old(client.Scopes(kind)) ==>
              && client.defaults == old(client.defaults) && client.optionals == old(client.optionals)
              && client.writes == old(client.writes)
    ensures r.Success? && client.writes == old(client.writes) ==> DeclaredScopes(declared) <= old(client.Scopes(kind))
    ensures client.writes == old(client.writes) ==>
              client.defaults == old(client.defaults) && client.optionals == old(client.optionals)
    ensures client.reliable ==>
              && (r.Failure? <==> !(DeclaredScopes(declared) <= old(client.Scopes(kind)) + client.realmScopes))
              && (r.Failure? ==> r.error.MissingScope?)
  {
    if declared.None? {
      return Success(false);
    }
    var ok, listed := client.ListClientScopes(kind);
    if !ok {
      return Failure(RequestFailed);
    }
    var realmScopes;
    ok, realmScopes := client.ListRealmClientScopes();
    if !ok {
      return Failure(RequestFailed);
    }
    var changed := false;
    for i := 0 to |declared.value|
      invariant client.Valid() && client.writes >= old(client.writes)
                && (changed <==> client.writes > old(client.writes))
      invariant listed == old(client.Scopes(kind)) <= client.Scopes(kind)
                && Names(declared.value[..i]) <= client.Scopes(kind)
      invariant client.Scopes(Other(kind)) <= old(client.Scopes(Other(kind)))
                <= client.Scopes(Other(kind)) + (Names(declared.value) * client.Scopes(kind))
      invariant client.reliable ==>
                  Names(declared.value[..i]) <= listed + realmScopes == old(client.Scopes(kind)) + client.realmScopes
      invariant Names(declared.value) <= listed ==> !changed
      invariant !changed ==>
                  && client.defaults == old(client.defaults) && client.optionals == old(client.optionals)
                  && Names(declared.value[..i]) <= listed
    {
      var name := declared.value[i];
      assert Names(declared.value[..i + 1]) == Names(declared.value[..i]) + {name};
      assert name in Names(declared.value);
      if name in listed {
        continue;
      }
      if name !in realmScopes {
        return Failure(MissingScope);
      }
      ok := client.AddClientScope(kind, name);
      if !ok {
        return Failure(RequestFailed);
      }
      changed := true;
    }
    assert declared.value[..|declared.value|] == declared.value;
    return Success(changed);
  }

  // ----- service account roles -----

  /** The roles of one owner that are missing, all of which exist. */
  method MissingRoles(client: Client, owner: string, roles: seq<string>, listed: set<string>)
    returns (r: Result<seq<string>, ClientError>)
    requires owner in client.clientRoles
    ensures r.Success? ==> Names(r.value) == Names(roles) - listed
    ensures client.reliable ==> (r.Success? <==> Names(roles) <= listed + client.clientRoles[owner])
    ensures client.reliable && r.Failure? ==> r.error.MissingRole?
  {
    var missing: seq<string> := [];
    for i := 0 to |roles|
      invariant Names(missing) == Names(roles[..i]) - listed
      invariant client.reliable ==> Names(roles[..i]) <= listed + client.clientRoles[owner]
    {
      var name := roles[i];
      assert Names(roles[..i + 1]) == Names(roles[..i]) + {name};
      if name in listed {
        continue;
      }
      var ok, found := client.GetClientRole(owner, name);
      if !ok {
        return Failure(RequestFailed);
      }
      assert name in Names(roles);
      if !found {
        return Failure(MissingRole);
      }
      assert Names(missing + [name]) == Names(missing) + {name};
      missing := missing + [name];
    }
    assert roles[..|roles|] == roles;
    return Success(missing);
  }

  /** The owner and its roles are defined in the realm. */
  predicate RolesExist(client: Client, owner: string, roles: seq<string>) {
    owner in client.clientRoles && Names(roles) <= client.clientRoles[owner]
  }

  /** Grants the roles of one owner that are missing, in one request. */
  method GrantRoles(client: Client, owner: string, roles: seq<string>) returns (r: Result<bool, ClientError>)
    requires client.Valid() && client.live.Some?
    modifies client`granted, client`writes
    ensures client.Valid() && client.writes >= old(client.writes) && RolesKept(old(client.granted), client.granted)
    ensures r.Success? ==> (r.value <==> client.writes > old(client.writes))
    ensures r.Success? ==> Names(roles) <= RolesOf(client.granted, owner)
    ensures Names(roles) <= RolesOf(old(client.granted), owner) ==>
              client.granted == old(client.granted) && client.writes == old(client.writes)
    ensures client.writes == old(client.writes) ==> client.granted == old(client.granted)
    ensures client.reliable && RolesExist(client, owner, roles) ==> r.Success?
    ensures client.reliable && r.Failure? ==> r.error.MissingClient? || r.error.MissingRole?
  {
    var ok, found := client.GetRoleOwner(owner);
    if !ok {
      return Failure(RequestFailed);
    }
    if !found {
      return Failure(MissingClient);
    }
    var listed;
    ok, listed := client.ListUserClientRoles(owner);
    if !ok {
      return Failure(RequestFailed);
    }
    var missing := MissingRoles(client, owner, roles, listed);
    if missing.Failure? {
      return Failure(missing.error);
    }
    assert missing.value == [] ==> Names(missing.value) == {};
    assert Names(roles) <= Names(missing.value) + listed;
    if |missing.value| > 0 {
      assert missing.value[0] in Names(missing.value);
      ok := client.AddUserClientRoles(owner, missing.value);
      if !ok {
        return Failure(RequestFailed);
      }
      return Success(true);
    }
    return Success(false);
  }

  /** The service account is enabled if roles are declared, and these are all defined. */
  predicate AllRolesExist(client: Client, spec: ClientSpec) {
    spec.serviceAccountRoles.Some? ==>
      spec.allowClientCredentials
      && forall owner :: owner in spec.serviceAccountRoles.value ==>
           RolesExist(client, owner, spec.serviceAccountRoles.value[owner])
  }

  /** Grants the declared roles owner by owner, in any order. */
  method ReconcileServiceAccountRoles(client: Client, spec: ClientSpec) returns (r: Result<bool, ClientError>)
    requires client.Valid() && client.live.Some?
    modifies client`granted, client`writes
    ensures client.Valid() && client.writes >= old(client.writes) && RolesKept(old(client.granted), client.granted)
    ensures r.Success? ==> (r.value <==> client.writes > old(client.writes))
    ensures r.Success? ==> RolesApplied(client.granted, DeclaredRoles(spec))
    ensures spec.serviceAccountRoles.Some? && !spec.allowClientCredentials ==> r == Failure(ServiceAccountDisabled)
    ensures RolesApplied(old(client.granted), DeclaredRoles(spec)) ==>
              client.granted == old(client.granted) && client.writes == old(client.writes)
    ensures r.Success? && client.writes == old(client.writes) ==> RolesApplied(old(client.granted), DeclaredRoles(spec))
    ensures client.writes == old(client.writes) ==> client.granted == old(client.granted)
    ensures client.reliable && AllRolesExist(client, spec) ==> r.Success?
    ensures client.reliable && r.Failure? ==> !r.error.RequestFailed? && !r.error.NoServiceAccount?
  {
    hide Names, RolesOf, RolesExist;
    if spec.serviceAccountRoles.None? {
      return Success(false);
    }
    if !spec.allowClientCredentials {
      return Failure(ServiceAccountDisabled);
    }
    var ok, found := client.GetServiceAccountUser();
    if !ok {
      return Failure(RequestFailed);
    }
    if !found {
      return Failure(NoServiceAccount);
    }
    var roles := spec.serviceAccountRoles.value;
    var todo := roles.Keys;
    var changed := false;
    while todo != {}
      invariant todo <= roles.Keys
      invariant client.Valid() && client.writes >= old(client.writes) && RolesKept(old(client.granted), client.granted)
      invariant changed <==> client.writes > old(client.writes)
      invariant forall owner :: owner in roles && owner !in todo ==>
                  Names(roles[owner]) <= RolesOf(client.granted, owner)
      invariant !changed ==> client.granted == old(client.granted)
      invariant RolesApplied(old(client.granted), roles) ==>
                  client.granted == old(client.granted) && client.writes == old(client.writes)
      decreases todo
    {
      var owner :| owner in todo;
      todo := todo - {owner};
      var granted := GrantRoles(client, owner, roles[owner]);
      if granted.Failure? {
        return Failure(granted.error);
      }
      changed := changed || granted.value;
    }
    return Success(changed);
  }

  // ----- the whole pass -----

  /** Creates the client, or brings the declared fields of an existing one back. */
  method EnsureClient(client: Client, desired: Json) returns (r: Result<ClientResult, ClientError>)
    requires client.Valid() && desired.Object?
    modifies client
    ensures client.Valid() && client.writes >= old(client.writes)
    ensures r.Success? ==>
              && client.live.Some? && Within(desired, client.live.value)
              && (r.value.created <==> old(client.live).None?) && !(r.value.created && r.value.updated)
              && (r.value.created || r.value.updated <==> client.writes > old(client.writes))
    ensures old(client.live).Some? ==>
              && client.live.Some? && client.mappers == old(client.mappers) && client.granted == old(client.granted)
              && client.defaults == old(client.defaults) && client.optionals == old(client.optionals)
              && (client.live == old(client.live) || Within(Merged(old(client.live).value, desired), client.live.value))
              && (Within(desired, old(client.live).value) ==> unchanged(client))
    ensures r.Success? && client.writes == old(client.writes) ==>
              old(client.live).Some? && Within(desired, old(client.live).value) && unchanged(client)
    ensures client.reliable ==> r.Success?
    ensures r.Failure? ==> r.error.RequestFailed?
  {
    var ok, live := client.GetClient();
    if !ok {
      return Failure(RequestFailed);
    }
    if live.None? {
      ok := client.CreateClient(desired);
      if !ok {
        return Failure(RequestFailed);
      }
      return Success(ClientResult(true, false));
    }
    var merged := Merged(live.value, desired);
    MergeChangesNothingIff(live.value, desired);
    if merged != live.value {
      ok := client.UpdateClient(merged);
      if !ok {
        return Failure(RequestFailed);
      }
      KeptMergeIsSettled(live.value, desired, client.live.value);
      return Success(ClientResult(false, true));
    }
    return Success(ClientResult(false, false));
  }

  /** Nothing that was there is taken away: roles, mappers, and scopes of either kind. */
  twostate predicate OnlyGrants(client: Client, spec: ClientSpec)
    reads client
  {
    && RolesKept(old(client.granted), client.granted)
    && MappersKept(old(client.mappers), client.mappers, DeclaredMappers(spec))
    && old(client.defaults + client.optionals) <= client.defaults + client.optionals
    && old(client.defaults) - DeclaredScopes(spec.optionalScopes) <= client.defaults
    && old(client.optionals) - DeclaredScopes(spec.defaultScopes) <= client.optionals
  }

  /** Everything declared besides the client's own fields is there. */
  ghost predicate PartsApplied(client: Client, spec: ClientSpec)
    reads client
  {
    && MappersApplied(client.mappers, DeclaredMappers(spec))
    && DeclaredScopes(spec.defaultScopes) <= client.defaults && DeclaredScopes(spec.optionalScopes) <= client.optionals
    && RolesApplied(client.granted, DeclaredRoles(spec))
  }

  ghost predicate Applied(client: Client, spec: ClientSpec, secret: string)
    requires client.Valid()
    reads client
  {
    client.live.Some? && ClientAsDeclared(client.live.value, spec, secret) && PartsApplied(client, spec)
  }

  /** The realm defines every declared scope and role. */
  predicate AllDefined(client: Client, spec: ClientSpec) {
    && AllRolesExist(client, spec)
    && DeclaredScopes(spec.defaultScopes) + DeclaredScopes(spec.optionalScopes) <= client.realmScopes
  }

  /** Service account roles, mappers, default scopes and optional scopes, in this order. */
  method ReconcileParts(client: Client, spec: ClientSpec) returns (r: Result<bool, ClientError>)
    requires client.Valid() && client.live.Some?
    modifies client`mappers, client`defaults, client`optionals, client`granted, client`writes
    ensures client.Valid() && client.writes >= old(client.writes)
    ensures OnlyGrants(client, spec)
    ensures r.Success? ==> (r.value <==> client.writes > old(client.writes))
    ensures r.Success? && WellPosed(spec) ==> PartsApplied(client, spec)
    ensures old(PartsApplied(client, spec)) ==> unchanged(client)
    ensures r.Success? && client.writes == old(client.writes) ==> old(PartsApplied(client, spec))
    ensures client.reliable && AllDefined(client, spec) ==> r.Success?
    ensures client.reliable && r.Failure? ==> !r.error.RequestFailed? && !r.error.NoServiceAccount?
  {
    hide Names, MappersKept, MappersApplied, RolesApplied, RolesKept, AllDifferent, AllRolesExist;
    KeptThemselves(client.mappers, DeclaredMappers(spec), client.granted);
    NoneApplied(client.mappers);
    var accountChanged := ReconcileServiceAccountRoles(client, spec);
    if accountChanged.Failure? {
      return Failure(accountChanged.error);
    }
    var mappersChanged := ReconcileProtocolMappers(client, spec.mappers);
    if mappersChanged.Failure? {
      return Failure(mappersChanged.error);
    }
    NoneApplied(client.mappers);
    var defaultsChanged := ReconcileClientScopes(client, Default, spec.defaultScopes);
    if defaultsChanged.Failure? {
      return Failure(defaultsChanged.error);
    }
    var optionalsChanged := ReconcileClientScopes(client, Optional, spec.optionalScopes);
    if optionalsChanged.Failure? {
      return Failure(optionalsChanged.error);
    }
    return Success(accountChanged.value || mappersChanged.value || defaultsChanged.value || optionalsChanged.value);
  }

  /**
   Makes the client match the declaration. Whatever fails on the way, roles, mappers
   and scopes are only added, and fields the declaration does not mention stay. A
   successful pass leaves everything declared in place, and it writes nothing exactly
   when the client already matched. When no request fails, a pass fails only for a scope, a
   role or a service account that is not there.
   */
  method ReconcileClient(client: Client, spec: ClientSpec, secret: string)
    returns (r: Result<ClientResult, ClientError>)
    requires client.Valid()
    modifies client
    ensures client.Valid() && client.writes >= old(client.writes)
    ensures OnlyGrants(client, spec)
    ensures old(client.live).Some? ==>
              && client.live.Some?
              && (client.live == old(client.live)
                  || (&& Within(Merged(old(client.live).value, DesiredClient(spec, secret)), client.live.value)
                      && ClientAsDeclared(client.live.value, spec, secret)
                      && RestKept(old(client.live).value, client.live.value, spec, secret)))
    ensures r.Success? ==> client.live.Some? && ClientAsDeclared(client.live.value, spec, secret)
    ensures r.Success? ==> (r.value.created <==> old(client.live).None?)
    ensures r.Success? ==> (r.value.created || r.value.updated <==> client.writes > old(client.writes))
    ensures r.Success? && WellPosed(spec) ==> Applied(client, spec, secret)
    ensures old(Applied(client, spec, secret)) ==> unchanged(client)
    ensures r.Success? ==> (client.writes == old(client.writes) <==> old(Applied(client, spec, secret)))
    ensures client.reliable && AllDefined(client, spec) ==> r.Success?
    ensures client.reliable && r.Failure? ==> !r.error.RequestFailed? && !r.error.NoServiceAccount?
  {
    hide DesiredClient, Within, Names, MappersKept, RolesKept, PartsApplied, WellPosed, AllDefined, ClientAsDeclared,
         RestKept;
    ghost var absent := client.live.None?;
    if !absent { DesiredClientMeans(client.live.value, spec, secret); }
    KeptThemselves(client.mappers, DeclaredMappers(spec), client.granted);
    var first := EnsureClient(client, DesiredClient(spec, secret));
    if absent { EmptyIsKept(client.mappers, DeclaredMappers(spec), client.granted); }
    if client.live.Some? { DesiredClientMeans(client.live.value, spec, secret); }
    if !absent && client.live != old(client.live) {
      DesiredIsThere(old(client.live).value, DesiredClient(spec, secret), client.live.value);
      ClientRestKept(old(client.live).value, client.live.value, spec, secret);
    }
    if first.Failure? {
      return Failure(first.error);
    }
    var changed := ReconcileParts(client, spec);
    if absent { EmptyIsKept(client.mappers, DeclaredMappers(spec), client.granted); }
    if changed.Failure? {
      return Failure(changed.error);
    }
    return Success(first.value.(updated := first.value.updated || changed.value));
  }

  lemma DesiredIsThere(live: Json, desired: Json, kept: Json)
    requires live.Object? && desired.Object? && kept.Object? && Within(Merged(live, desired), kept)
    ensures Within(desired, kept)
  {
    KeptMergeIsSettled(live, desired, kept);
  }

  lemma KeptThemselves(mappers: seq<Json>, declared: seq<Mapper>, granted: map<string, set<string>>)
    ensures MappersKept(mappers, mappers, declared) && RolesKept(granted, granted)
  {
    RestsStay(mappers, declared);
  }

  lemma NoneApplied(mappers: seq<Json>)
    ensures MappersApplied(mappers, [])
  {
  }

  lemma EmptyIsKept(mappers: seq<Json>, declared: seq<Mapper>, granted: map<string, set<string>>)
    ensures MappersKept([], mappers, declared) && RolesKept(map[], granted)
  {
  }

  /**
   Once everything declared is there, as a successful pass over a well-posed
   declaration leaves it, no number of later passes changes anything, whatever becomes
   of them, and the successful ones report so. Where two mappers of one name are
   declared with different settings, every successful pass writes.
   */
  method ReconcileClientAgain(client: Client, spec: ClientSpec, secret: string, passes: nat)
    returns (succeeded: nat, quiet: bool)
    requires client.Valid()
    modifies client
    ensures client.Valid()
    ensures old(Applied(client, spec, secret)) ==> unchanged(client) && quiet
    ensures Contradictory(DeclaredMappers(spec)) ==> client.writes >= old(client.writes) + succeeded
    ensures client.reliable && AllDefined(client, spec) ==> succeeded == passes
  {
    hide PartsApplied, Within, DesiredClient, OnlyGrants, WellPosed, Contradictory, AllDefined;
    succeeded, quiet := 0, true;
    for n := 0 to passes
      invariant client.Valid() && succeeded <= n
      invariant old(Applied(client, spec, secret)) ==> unchanged(client) && quiet
      invariant Contradictory(DeclaredMappers(spec)) ==> client.writes >= old(client.writes) + succeeded
      invariant client.reliable && AllDefined(client, spec) ==> succeeded == n
    {
      if Contradictory(DeclaredMappers(spec)) {
        NeverApplied(client, spec);
      }
      var r := ReconcileClient(client, spec, secret);
      if r.Success? {
        succeeded, quiet := succeeded + 1, quiet && r.value == ClientResult(false, false);
      }
    }
  }

  /** Two mappers of one name are declared with different settings. */
  ghost predicate Contradictory(declared: seq<Mapper>) {
    exists a, b, key ::
      && a in declared && b in declared && a.name == b.name
      && key in a.config && key in b.config && a.config[key] != b.config[key]
  }

  lemma NeverApplied(client: Client, spec: ClientSpec)
    requires Contradictory(DeclaredMappers(spec))
    ensures !PartsApplied(client, spec)
  {
    hide Contradictory, MappersApplied;
    ConflictingMappersNeverSettle(client.mappers, DeclaredMappers(spec));
  }

  /** Why mapper names must differ: two declarations of one name with different settings never both hold. */
  lemma ConflictingMappersNeverSettle(mappers: seq<Json>, declared: seq<Mapper>)
    requires Contradictory(declared)
    ensures !MappersApplied(mappers, declared)
  {
    hide MapperAsDeclared;
    var a, b, key :|
      && a in declared && b in declared && a.name == b.name
      && key in a.config && key in b.config && a.config[key] != b.config[key];
    if MapperApplied(mappers, a) && MapperApplied(mappers, b) {
      var live := mappers[LastIndex(NamesOf(mappers), a.name).value];
      MapperSetting(a, live, key);
      MapperSetting(b, live, key);
    }
  }

  lemma MapperSetting(mapper: Mapper, live: Json, key: string)
    requires key in mapper.config && live.Object? && MapperAsDeclared(live, mapper)
    ensures At(live, ["config", key]) == Some(Text(mapper.config[key]))
  {
    var config := live.fields["config"];
    assert HasText(config, key, mapper.config[key]);
    assert ["config", key][1..] == [key] && [key][1..] == [];
    assert At(config, [key]) == At(config.fields[key], []);
  }
}
