/** The records the reporting core exchanges, and the collaborators it calls
    but whose bodies are not part of this model. A collaborator is a plain
    function value: the model assumes nothing about it beyond its type. */
module Types {
  import opened Wrappers
  import opened Values

  datatype Error = Error(msg: string)

  /** A point in time as Go's `time.Time`, counted in ticks from Go's zero
      time (`time.Time{}`, the start of year 1, UTC). */
  datatype Time = Time(ticks: int)

  const ZeroTime := Time(0)

  /** Names defined by the `model` package, which is not part of this model.
      These five values are assumed. */
  const ScopeSystem := "system"
  const AttrNameUpdatedAt := "updated_at"
  const AttrNameCreatedAt := "created_at"
  const FieldNameID := "id"
  const FieldNameTenantID := "tenant_id"

  /** What `model.MaybeParseAttr` recovers from an engine field key. An empty
      `name` means "not an attribute field". */
  datatype AttrName = AttrName(scope: string, name: string)

  /** `inventory.DeviceAttribute`. */
  datatype DeviceAttribute = DeviceAttribute(name: string, scope: string, value: Json)

  /** `inventory.Device`. */
  datatype Device = Device(
    id: string,
    createdTs: Time,
    updatedTs: Time,
    attributes: seq<DeviceAttribute>)

  /** `model.FilterAttribute`. */
  datatype FilterAttribute = FilterAttribute(name: string, scope: string, count: int)

  /** `model.SelectAttribute`. */
  datatype SelectAttribute = SelectAttribute(attribute: string, scope: string)

  /** `model.SearchParams`: the fields this core reads or rewrites, and the
      rest (filters, sort, paging) kept as one value that only the query
      builder interprets. */
  datatype SearchParams = SearchParams(
    tenantID: string,
    deviceIDs: seq<string>,
    attributes: seq<SelectAttribute>,
    criteria: Json)

  /** `model.Query`: whatever the builder produced, plus the `must` clauses
      of its top-level boolean query. */
  datatype Query = Query(body: Json, must: seq<Json>)

  /** `Query.Must(clause)`, taken to add one clause every hit has to
      satisfy (its body is in the `model` package). */
  function Must(q: Query, clause: Json): Query
  {
    Query(q.body, q.must + [clause])
  }

  /** Package-level functions the core calls: `model.MaybeParseAttr`,
      `model.Redot`, `model.BuildQuery`, and `time.Parse(time.RFC3339, _)`
      (the `date-time` production of section 5.6 of RFC 3339), which yields
      a time or fails. */
  datatype Externals = Externals(
    maybeParseAttr: string -> Result<AttrName, Error>,
    redot: string -> string,
    buildQuery: SearchParams -> Result<Query, Error>,
    parseRfc3339: string -> Option<Time>)

  /** `mapping.Mapper`: forward and reverse attribute-name mapping. */
  datatype Mapper = Mapper(
    mapInventoryAttributes: (string, seq<DeviceAttribute>, bool) -> Result<seq<DeviceAttribute>, Error>,
    reverseInventoryAttributes: (string, seq<DeviceAttribute>) -> Result<seq<DeviceAttribute>, Error>)

  /** `store.Store`: a ping answer (None = healthy), search, and the tenant's
      index mapping. */
  datatype Store = Store(
    ping: Option<Error>,
    search: Query -> Result<map<string, Json>, Error>,
    getDevicesIndexMapping: string -> Result<map<string, Json>, Error>)

  /** The `app` struct: engine store, mapper, and the data store, of which
      only the ping answer matters here. */
  datatype App = App(store: Store, mapper: Mapper, dsPing: Option<Error>)
}
