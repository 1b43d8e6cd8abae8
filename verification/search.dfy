/** The app's public operations around the decoders (`HealthCheck`,
    `InventorySearchDevices` and `mapSearchParamsAttributes` in
    app/reporting/reporting.go). */
module Search {
  import opened Wrappers
  import opened Values
  import opened Types
  import opened Decoding

  // ---------------------------------------------------------------------
  // Health

  datatype Service = DataStore | EngineStore

  /** The health verdict (None = healthy) and the services pinged, in order. */
  datatype Health = Health(err: Option<Error>, pinged: seq<Service>)

  /** `HealthCheck`: healthy iff both stores answer; the engine store is
      pinged only once the data store has answered, and the first error is
      the verdict. */
  function HealthCheck(app: App): (h: Health)
    ensures h.err.None? <==> app.dsPing.None? && app.store.ping.None?
    ensures EngineStore in h.pinged <==> app.dsPing.None?
    ensures app.dsPing.Some? ==> h.err == app.dsPing
    ensures app.dsPing.None? ==> h.err == app.store.ping
    ensures |h.pinged| > 0 && h.pinged[0] == DataStore
  {
    if app.dsPing.Some? then Health(app.dsPing, [DataStore])
    else Health(app.store.ping, [DataStore, EngineStore])
  }

  // ---------------------------------------------------------------------
  // Selector rewriting

  /** A selector as the mapper takes it: name and scope, no value. */
  function ToDeviceAttributes(ss: seq<SelectAttribute>): seq<DeviceAttribute>
  {
    seq(|ss|, i requires 0 <= i < |ss| => DeviceAttribute(ss[i].attribute, ss[i].scope, JNull))
  }

  /** Back from the mapper's answer: its names and scopes, in its order. */
  function ToSelectAttributes(attrs: seq<DeviceAttribute>): seq<SelectAttribute>
  {
    seq(|attrs|, i requires 0 <= i < |attrs| => SelectAttribute(attrs[i].name, attrs[i].scope))
  }

  /** `mapSearchParamsAttributes`: with no selectors nothing happens and the
      mapper is not consulted; otherwise the selectors are sent to the mapper
      without permission to create mappings, and replaced by its answer.
      Nothing but the selectors changes. */
  function MapSearchParamsAttributes(mapper: Mapper, p: SearchParams): (r: Result<SearchParams, Error>)
    ensures |p.attributes| == 0 ==> r == Success(p)
    ensures r.Success? ==> r.value.(attributes := p.attributes) == p
    ensures |p.attributes| > 0 ==>
      var answer := mapper.mapInventoryAttributes(p.tenantID, ToDeviceAttributes(p.attributes), false);
      && (answer.Failure? ==> r == Failure(answer.error))
      && (answer.Success? ==> r.Success? && r.value.attributes == ToSelectAttributes(answer.value))
  {
    if |p.attributes| == 0 then Success(p)
    else
      var mapped :- mapper.mapInventoryAttributes(p.tenantID, ToDeviceAttributes(p.attributes), false);
      Success(p.(attributes := ToSelectAttributes(mapped)))
  }

  /** The two conversions are inverse: a mapper that hands back what it was
      given leaves the search parameters exactly as they were. */
  lemma {:induction false} SelectorsRoundTrip(ss: seq<SelectAttribute>)
    ensures ToSelectAttributes(ToDeviceAttributes(ss)) == ss
  {
    var back := ToSelectAttributes(ToDeviceAttributes(ss));
    assert |back| == |ss|;
    forall i | 0 <= i < |ss| ensures back[i] == ss[i] {
    }
  }

  lemma IdentityMapperKeepsParams(mapper: Mapper, p: SearchParams)
    requires forall t, attrs :: mapper.mapInventoryAttributes(t, attrs, false) == Success(attrs)
    ensures MapSearchParamsAttributes(mapper, p) == Success(p)
  {
    SelectorsRoundTrip(p.attributes);
  }

  /** Only the mapper's create-nothing behaviour matters: two mappers that
      agree whenever `createIfMissing` is false rewrite every search alike. */
  lemma MapsWithoutCreating(m1: Mapper, m2: Mapper, p: SearchParams)
    requires forall t, attrs :: m1.mapInventoryAttributes(t, attrs, false) == m2.mapInventoryAttributes(t, attrs, false)
    ensures MapSearchParamsAttributes(m1, p) == MapSearchParamsAttributes(m2, p)
  {
  }

  // ---------------------------------------------------------------------
  // The query

  /** `{"term": {tenant-id field: tid}}`. */
  function TenantClause(tid: string): Json {
    JObj(map["term" := JObj(map[FieldNameTenantID := JStr(tid)])])
  }

  function Strings(ss: seq<string>): seq<Json>
  {
    seq(|ss|, i requires 0 <= i < |ss| => JStr(ss[i]))
  }

  /** `{"terms": {id field: ids}}`. */
  function DeviceIDsClause(ids: seq<string>): Json {
    JObj(map["terms" := JObj(map[FieldNameID := JArr(Strings(ids))])])
  }

  /** The must-clauses the app adds to the built query: the tenant term when
      there is a tenant, then the device-ID terms when there are IDs. */
  function ScopingClauses(p: SearchParams): seq<Json> {
    (if p.tenantID != "" then [TenantClause(p.tenantID)] else [])
    + (if |p.deviceIDs| > 0 then [DeviceIDsClause(p.deviceIDs)] else [])
  }

  /** The query `InventorySearchDevices` sends to the store: selectors
      mapped, query built from the mapped parameters, scoping clauses
      appended. A mapping or building error stops here. */
  function SearchQuery(x: Externals, mapper: Mapper, p: SearchParams): (r: Result<Query, Error>)
    ensures MapSearchParamsAttributes(mapper, p).Failure? ==> r == Failure(MapSearchParamsAttributes(mapper, p).error)
    ensures MapSearchParamsAttributes(mapper, p).Success? ==>
      var built := x.buildQuery(MapSearchParamsAttributes(mapper, p).value);
      && (built.Failure? ==> r == Failure(built.error))
      && (built.Success? ==> r == Success(Query(built.value.body, built.value.must + ScopingClauses(p))))
  {
    var mapped :- MapSearchParamsAttributes(mapper, p);
    var q :- x.buildQuery(mapped);
    var q1 := if mapped.tenantID != "" then Must(q, TenantClause(mapped.tenantID)) else q;
    var q2 := if |mapped.deviceIDs| > 0 then Must(q1, DeviceIDsClause(mapped.deviceIDs)) else q1;
    assert q2.must == q.must + ScopingClauses(mapped);
    Success(q2)
  }

  /** The added clauses: the tenant term iff the tenant ID is non-empty, the
      device-ID terms iff there are device IDs, the tenant term first. */
  lemma ScopingClausesSpec(p: SearchParams)
    ensures TenantClause(p.tenantID) in ScopingClauses(p) <==> p.tenantID != ""
    ensures DeviceIDsClause(p.deviceIDs) in ScopingClauses(p) <==> |p.deviceIDs| > 0
    ensures |ScopingClauses(p)| == (if p.tenantID != "" then 1 else 0) + (if |p.deviceIDs| > 0 then 1 else 0)
    ensures p.tenantID != "" ==> ScopingClauses(p)[0] == TenantClause(p.tenantID)
    ensures |p.deviceIDs| > 0 ==> ScopingClauses(p)[|ScopingClauses(p)| - 1] == DeviceIDsClause(p.deviceIDs)
  {
    assert TenantClause(p.tenantID) != DeviceIDsClause(p.deviceIDs) by {
      assert "term" in TenantClause(p.tenantID).fields;
      assert "term" !in DeviceIDsClause(p.deviceIDs).fields;
    }
  }

  /** Tenant `t1` and devices `d1`, `d2`: the query ends with the must-clauses
      `term{tenant: t1}` and `terms{id: [d1, d2]}`, in that order. */
  lemma QueryExample(x: Externals, mapper: Mapper, criteria: Json)
    requires x.buildQuery(SearchParams("t1", ["d1", "d2"], [], criteria)).Success?
    ensures var r := SearchQuery(x, mapper, SearchParams("t1", ["d1", "d2"], [], criteria));
      && r.Success?
      && |r.value.must| >= 2
      && r.value.must[|r.value.must| - 2..] == [
           JObj(map["term" := JObj(map[FieldNameTenantID := JStr("t1")])]),
           JObj(map["terms" := JObj(map[FieldNameID := JArr([JStr("d1"), JStr("d2")])])])]
  {
    assert Strings(["d1", "d2"]) == [JStr("d1"), JStr("d2")];
  }

  // ---------------------------------------------------------------------
  // The search

  /** `InventorySearchDevices`: hits in order with the total, or nil, 0 and
      the first error of mapping, building, searching or decoding. */
  function InventorySearchDevices(x: Externals, app: App, p: SearchParams, orders: nat -> KeyOrder): (r: Reply)
    ensures r.err.Some? <==> r.devices.None?
    ensures r.err.Some? ==> r.total == 0
    ensures SearchQuery(x, app.mapper, p).Failure? ==> r == Fail(SearchQuery(x, app.mapper, p).error)
    ensures SearchQuery(x, app.mapper, p).Success? ==>
      var answer := app.store.search(SearchQuery(x, app.mapper, p).value);
      && (answer.Failure? ==> r == Fail(answer.error))
      && (answer.Success? ==> r == StoreToInventoryDevs(x, app.mapper, p.tenantID, answer.value, orders))
  {
    match SearchQuery(x, app.mapper, p)
    case Failure(e) => Fail(e)
    case Success(query) =>
      match app.store.search(query)
      case Failure(e) => Fail(e)
      case Success(esRes) => StoreToInventoryDevs(x, app.mapper, p.tenantID, esRes, orders)
  }

  /** A mapping or building error means the store is never asked: the
      outcome is the same whatever the store would have answered. */
  lemma SearchShortCircuits(x: Externals, app: App, p: SearchParams, orders: nat -> KeyOrder, other: Store)
    requires SearchQuery(x, app.mapper, p).Failure?
    ensures InventorySearchDevices(x, app, p, orders) == InventorySearchDevices(x, app.(store := other), p, orders)
    ensures InventorySearchDevices(x, app, p, orders).err.Some?
  {
  }
}
