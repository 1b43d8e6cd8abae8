# Reporting service core, in Dafny

A Dafny model of the pure logic at the centre of the Mender reporting service.

- The **result decoder** (`storeToInventoryDevs`, `storeToInventoryDev`, `parseTime`) turns the untyped search-engine response into inventory devices and a hit total:
  - the `hits` / `hits.total.value` / `hits.hits` envelope;
  - the `_source` or `fields` body of each hit;
  - the device id as a scalar or as an array;
  - unwrapping one-element arrays;
  - filtering attribute keys through the attribute codec;
  - best-effort `created_at` / `updated_at` timestamps.
- The **schema introspector** (`GetSearchableInvAttrs`) lists the searchable attributes under an index's `mappings.properties` and sorts them with the code's comparator.
- The **search orchestration** (`InventorySearchDevices`, `mapSearchParamsAttributes`, `HealthCheck`):
  - rewrites attribute selectors through the mapper;
  - adds the tenant `term` and device-ID `terms` must-clauses to the built query;
  - stops at the first error;
  - short-circuits the health pings.
- The **inventory client's URL** (`joinURL`, and the single `:tid` substitution `GetDevices` performs on the search endpoint).

Modules:

- `Wrappers`: `Option` and `Result`.
- `Values`: the `Json` datatype that stands for Go's `interface{}` values, and Go map iteration orders.
- `GoStrings`: Go string ordering, `HasPrefix`/`HasSuffix`/`TrimPrefix`, and `strings.Replace(…, 1)`.
- `Types`: the records, and the collaborators as function values.
- `KeyWalk`: the shared "range over a map's keys, parse, abort on error, maybe emit" loop.
- `Decoding`, `Schema` and `Search`: the app.
- `InventoryClient`: the URL.

Go visits a map in an unspecified order. Every operation that ranges over a map therefore takes the visiting order as a parameter (`KeyOrder`). The lemmas show what does and does not depend on it. Only orders that visit every key of the map exactly once model a Go `range`. The operations accept any `KeyOrder`, and the lemmas about map contents require a full enumeration (`Enumerates`, `ValidOrder`).

The collaborators have no bodies in this model. These are the store, the data store, the mapper, `model.MaybeParseAttr`, `model.Redot`, `model.BuildQuery` and the RFC 3339 parser. Each is a field of `Externals`, `Mapper`, `Store` or `App`, and nothing is assumed about it beyond its type. Most are function-typed fields. The two pings are `Option<Error>` values: the answer a ping gave, with `None` meaning healthy.

The sort comparator (app/reporting/reporting.go:300-310) puts entry `i` first when its scope is smaller, or when the scopes are equal and its name is smaller. So the code sorts scope ascending, then name **ascending**, and `Schema.SortExample` proves the order identity/mac, inventory/cpu, inventory/mem.

## Model

| member | source | states |
|---|---|---|
| `Decoding.Envelope` | app/reporting/reporting.go:136-154 | Each of the four shape failures gives its own error, checked in the code's order: `hits` not an object, `hits.total` not an object, `hits.total.value` not a number, `hits.hits` not an array. The envelope succeeds iff all four hold, and then yields the total and the hits. |
| `Decoding.DecodeHits` | app/reporting/reporting.go:156-163 | The hit loop succeeds iff every hit decodes. It then holds one device per hit, in hit order. Otherwise it fails with the error of the first hit that fails. |
| `Decoding.StoreToInventoryDevs` | app/reporting/reporting.go:131-166 | The result has devices iff it has no error, and total 0 on any error. Envelope errors are passed through. It succeeds iff every hit decodes, and then returns the envelope total and the decoded devices in hit order. Otherwise the error is the first failing hit's. A partial list is never returned. |
| `Decoding.StoreToInventoryDev` | app/reporting/reporting.go:168-244 | A non-object hit and a hit without an object body each give their error. With a body, the errors come in the code's order: an unusable id gives the id error, then a key that does not parse gives its parse error, then a mapper failure gives the mapper's error. The hit decodes iff the id, the attributes and the mapper all succeed. The id is then the body's id, and the attributes are what the mapper returned for the collected attributes. Created and updated times are the stamps of those collected attributes. The id read is the corrected one: on `"id": []` this gives the id error where the code as written panics (see Findings). |
| `Decoding.SourceBeforeFields` | app/reporting/reporting.go:176-182 | `_source` wins over `fields`. A hit whose `_source` is an object decodes exactly like the hit holding only that `_source`, whatever its `fields` holds. A hit whose `_source` is not an object decodes exactly like the hit holding only its `fields`. |
| `Decoding.ReadId` | app/reporting/reporting.go:184-200 | The id read succeeds iff the value is a string, or a non-empty array whose first element is a string. It then returns that string, or element 0 of the array. Every other shape gives the id error. This is the corrected read; see Findings. |
| `Decoding.ReadIdAgreesElsewhere` | app/reporting/reporting.go:185-199 | On every value except the empty array, the corrected id read and the code as written agree: same success, same id, same error. |
| `Decoding.EmptyIdArrayPanics` | app/reporting/reporting.go:194 | For an empty id array, the code as written indexes out of range, while the corrected read returns the id error. |
| `Decoding.ParseTime` | app/reporting/reporting.go:246-252 | A string that parses gives its time. A string that does not parse gives the zero time. A non-string is parsed as the empty string: it gives what the parser makes of "", or the zero time when "" does not parse. It never fails. |
| `Decoding.Stamp` | app/reporting/reporting.go:225-231 | The last collected attribute that is the system attribute `name` decides the timestamp. With no such attribute the zero time stays. |
| `Decoding.HitAttributesSpec` | app/reporting/reporting.go:208-235 | Over a full enumeration of the body's keys, attribute collection fails iff some key does not parse. Otherwise an attribute is collected iff some key parses to scope `s` and a non-empty name `n`. That attribute is named `Redot(n)`, is scoped `s`, and carries the key's value with a one-element array unwrapped. There is exactly one attribute per such key: each attribute occurs as many times as there are keys standing for it. |
| `Decoding.HitAttributesCount` | app/reporting/reporting.go:208-234 | A successful walk over a full enumeration of the body holds one attribute per key that parses to a non-empty name. Each attribute occurs as many times as there are keys standing for it. |
| `Decoding.HitAttributesOrderIndependent` | app/reporting/reporting.go:208 | Go's unspecified map order decides neither whether a hit's attributes are collected, nor their multiset. |
| `Decoding.TimestampsNeverFail` | app/reporting/reporting.go:225-233 | Replacing the RFC 3339 parser by any other parser changes neither whether a hit decodes, nor the error, nor the id, nor the attributes. |
| `Decoding.FieldsFormMatchesSourceForm` | app/reporting/reporting.go:175-216 | Take a body whose values are not arrays. Read through `fields`, with every value, id included, in a one-element array, it decodes to the same device as when read through `_source`. |
| `Decoding.FieldsHitExample` | app/reporting/reporting.go:175-241 | The `fields` hit `{"id": ["dev1"], "inventory.attr.cpu": ["4"]}` decodes to device `dev1`. The mapper receives the single attribute cpu = "4" in scope `inventory`. |
| `KeyWalk.CollectFailure` | app/reporting/reporting.go:208-212 | A key walk succeeds iff every visited key succeeds. It fails with the error of the first key that fails. |
| `KeyWalk.CollectItems` | app/reporting/reporting.go:218-234 | An item is emitted iff some visited key emits it. There are never more items than keys. |
| `KeyWalk.CollectMultiplicity` | app/reporting/reporting.go:288-298 | Over distinct keys, each item is emitted as many times as there are keys that emit it. |
| `KeyWalk.CollectLength` | app/reporting/reporting.go:218-234 | Over distinct keys, there are exactly as many items as keys that emit one. |
| `KeyWalk.CollectAppend` | app/reporting/reporting.go:288-298 | Walking `a + b` is walking `a` and then `b`. |
| `KeyWalk.CollectSingle` | app/reporting/reporting.go:289-297 | A walk over one key fails with that key's error, or emits that key's item, if it has one. |
| `KeyWalk.CollectSameKeys` | app/reporting/reporting.go:288-293 | Whether a walk succeeds depends only on the set of visited keys. |
| `KeyWalk.CollectPermutation` | app/reporting/reporting.go:288-298 | Permuting the visited keys changes neither whether the walk succeeds nor the multiset of emitted items. |
| `Schema.Properties` | app/reporting/reporting.go:265-284 | A missing or non-object `mappings` gives the mappings error. A missing or non-object `mappings.properties` gives the properties error. Otherwise the result is the properties map. |
| `Schema.GetSearchableInvAttrs` | app/reporting/reporting.go:254-315 | A store error is returned as is, then structural errors. Any list returned is sorted by the comparator. |
| `Schema.GetSearchableInvAttrsSpec` | app/reporting/reporting.go:286-315 | For any full enumeration of the properties, once the index and its `mappings.properties` are read, the listing fails iff some property key does not parse. Otherwise it is sorted and holds one entry per property key that parses to a non-empty name. Each entry has that raw name and scope with count 1, and occurs once for each key standing for it; nothing else is listed. |
| `Schema.ListPropertiesSpec` | app/reporting/reporting.go:286-310 | Over a full enumeration of the properties, the listing fails iff some key does not parse. Otherwise it is sorted and every count is 1. An entry is present iff some key parses to its scope and non-empty raw name (not re-dotted). There is exactly one entry per such key: each entry occurs as many times as there are keys standing for it. |
| `Schema.ListPropertiesLength` | app/reporting/reporting.go:288-298 | The listing has exactly one entry per property key that parses to a non-empty name. |
| `Schema.ListPropertiesMultiplicity` | app/reporting/reporting.go:295-297 | Each entry occurs as many times as there are property keys standing for it, so two keys with the same scope and name give two equal entries. |
| `Schema.ListPropertiesOrderIndependent` | app/reporting/reporting.go:288-310 | Two enumerations of the properties give the same success and, on success, the same list: the sort erases the map order. |
| `Schema.SearchableAttrsOrderIndependent` | app/reporting/reporting.go:254-315 | The listing succeeds, and then gives the same list, whatever order Go visits the properties map in. |
| `Schema.Insert` | app/reporting/reporting.go:300-310 | Inserting into a sorted list keeps it sorted and adds exactly that entry. |
| `Schema.SortAttrs` | app/reporting/reporting.go:300-310 | The sort result is sorted by the comparator and is a permutation of its input. |
| `Schema.SortedUnique` | app/reporting/reporting.go:300-310 | Two sorted permutations of count-1 entries are equal. So Go's unstable `sort.Slice` has exactly one possible outcome. |
| `Schema.SortAttrsIsTheSortedArrangement` | app/reporting/reporting.go:300-310 | Any sorted arrangement of the collected entries is the one `SortAttrs` returns. |
| `Schema.BeforeAsymmetric` | app/reporting/reporting.go:300-310 | The comparator never puts two entries each before the other. |
| `Schema.BeforeTransitive` | app/reporting/reporting.go:300-310 | The comparator is transitive. |
| `Schema.BeforeTotal` | app/reporting/reporting.go:300-310 | The comparator orders any two entries with different scope or name. |
| `Schema.SortThree` | app/reporting/reporting.go:300-310 | Three entries in comparator order c, a, b come out as [c, a, b], whatever arrangement of them goes in. |
| `Schema.SortExample` | app/reporting/reporting.go:300-310 | Sorting inventory/cpu, inventory/mem and identity/mac gives identity/mac, inventory/cpu, inventory/mem: scope ascending, then name ascending. |
| `GoStrings.LessIrreflexive` | app/reporting/reporting.go:301-309 | Go's string `<` is irreflexive. |
| `GoStrings.LessTransitive` | app/reporting/reporting.go:301-309 | Go's string `<` is transitive. |
| `GoStrings.LessTotal` | app/reporting/reporting.go:301-309 | Any two different strings are ordered by Go's string `<`. |
| `Search.HealthCheck` | app/reporting/reporting.go:54-61 | The service is healthy iff both pings succeed. The engine store is pinged iff the data store answered. The first error is the verdict. The data store is always pinged first. |
| `Search.MapSearchParamsAttributes` | app/reporting/reporting.go:104-128 | With no selectors, the parameters come back unchanged. Otherwise the selectors go to the mapper with `createIfMissing` false. The mapper's error is returned as is; on success its answer replaces the selectors. Nothing but the selectors changes. |
| `Search.SelectorsRoundTrip` | app/reporting/reporting.go:107-125 | Converting selectors to mapper attributes and back gives the selectors again. |
| `Search.IdentityMapperKeepsParams` | app/reporting/reporting.go:104-128 | A mapper that returns what it is given leaves the search parameters exactly as they were. |
| `Search.MapsWithoutCreating` | app/reporting/reporting.go:114-115 | Only the mapper's `createIfMissing = false` behaviour affects the rewrite. |
| `Search.SearchQuery` | app/reporting/reporting.go:67-89 | A mapping error or a build error stops the search. Otherwise the query is the built query with the scoping clauses appended after its own must-clauses. |
| `Search.ScopingClausesSpec` | app/reporting/reporting.go:75-89 | The tenant `term` clause is present iff the tenant ID is non-empty. The device-ID `terms` clause is present iff there are device IDs. The tenant clause comes first, and there are no other clauses. |
| `Search.QueryExample` | app/reporting/reporting.go:75-89 | For tenant t1 and devices d1, d2, the query ends with `term{tenant_id: t1}` and then `terms{id: [d1, d2]}`. |
| `Search.InventorySearchDevices` | app/reporting/reporting.go:63-102 | The result has devices iff it has no error, and total 0 on any error. A mapping, build or search error is returned with nil devices. Otherwise the store's answer is decoded. |
| `Search.SearchShortCircuits` | app/reporting/reporting.go:67-73 | A mapping or build error means the store is never consulted: the result is an error, whatever the store would answer. |
| `GoStrings.TrimPrefix` | client/inventory/client.go:115 | A leading `prefix` is removed once. Without one, the string is unchanged. |
| `GoStrings.ReplaceOnceLeftmost` | client/inventory/client.go:79 | Without an occurrence, `Replace(s, pat, rep, 1)` returns `s`. Otherwise it replaces the leftmost occurrence of `pat`, and nothing else. |
| `InventoryClient.WithSlash` | client/inventory/client.go:116-118 | The base gets a trailing slash only when it lacks one, and keeps its prefix. |
| `InventoryClient.JoinURL` | client/inventory/client.go:114-120 | The result starts with `base`. Its length is `|base| + [base lacks '/'] + |url| - [url starts with '/']`. A slash follows a base without one. After the slashed base comes `url` with one leading slash trimmed. |
| `InventoryClient.JoinURLSeam` | client/inventory/client.go:114-120 | A trailing slash on the base or a leading slash on the path does not change the join: the seam holds exactly one slash. |
| `InventoryClient.DoubleSlashKept` | client/inventory/client.go:115 | Only one leading slash is trimmed: joining `http://h` and `//x` gives `http://h//x`. |
| `InventoryClient.SearchPathSplit` | client/inventory/client.go:32 | The search path, without its leading slash, is the head, `:tid` and the tail. The head holds no `:`. |
| `InventoryClient.SearchURLPlainBase` | client/inventory/client.go:78-79 | When the base holds no `:tid`, the tenant replaces the path's `:tid`. |
| `InventoryClient.SearchURLParamInBase` | client/inventory/client.go:78-79 | When the base holds `:tid`, its leftmost occurrence there is substituted, and the path's own `:tid` is left untouched. |
| `InventoryClient.SearchURLExample` | client/inventory/client.go:32-79 | For base `http://h`, the URL is `http://h/api/internal/v2/inventory/tenants/<tid>/filters/search`. |

## Left out

- I/O in `GetDevices` (client/inventory/client.go:60-112) is not modelled: request serialisation, the HTTP client and TLS transport, the 10-second timeout, the non-200 error path and response decoding are network plumbing. Only the URL the request goes to is modelled.
- Logging (`l.Debugf`) and `context` cancellation are left out. Neither affects a result.
- The collaborators are parameters without contracts, because their bodies are not part of this model:
  - the store (`Search`, `GetDevicesIndexMapping`, `Ping`);
  - the data store's `Ping`;
  - the mapper's two calls;
  - `model.MaybeParseAttr`, `model.Redot` and `model.BuildQuery`;
  - `time.Parse(time.RFC3339, …)`, an abstract partial function returning an `Option`.
- `Query.Must` lives in the `model` package, which is not part of this model. `Types.Must` gives it an assumed body: it appends one clause to the query's must-list.
- The values of `model.ScopeSystem`, `AttrNameUpdatedAt`, `AttrNameCreatedAt`, `FieldNameID` and `FieldNameTenantID` are assumed to be `"system"`, `"updated_at"`, `"created_at"`, `"id"` and `"tenant_id"`, because the `model` package is not part of this model.
- `hits.total.value` is a float64 in Go, converted with `int()`, which truncates. It is modelled as an integer JSON number, so fractional and out-of-range totals are not modelled.
- Go strings are byte sequences; here they are sequences of characters. Ordering agrees on valid UTF-8.
- `mapSearchParamsAttributes` rewrites `*searchParams` in place. The model returns the rewritten parameters instead. The caller's copy of the parameters is not observable afterwards in this core.
- `HealthCheck` is modelled on the two pings' outcomes, given as values. Which store gets pinged is recorded in the result instead of being an effect.
- Decoding.HitAttributesOrderIndependent: when several keys of one hit fail to parse, which of those errors Go reports depends on the map order. The lemma proves only that success, and the multiset of attributes on success, do not depend on the order.
- Schema.SearchableAttrsOrderIndependent: as above, the reported parse error may depend on the map order. The lemma proves equality of the result on success only.
- Decoding.StoreToInventoryDev: the order in which attributes reach the mapper is the map order (`KeyOrder`). The model fixes one order per hit and does not claim the mapper ignores order.
- tests/conftest.py is test-host configuration with no logic, and is not modelled.

## Findings

| source | as written | input that shows it | evidently intended | confidence | as-written member | corrected member |
|---|---|---|---|---|---|---|
| app/reporting/reporting.go:194 | `idarr[0]` is evaluated without checking that the id array is non-empty | a hit whose body has `"id": []` | the "can't parse device id as neither single value nor array" error, as for every other unusable id | high; not executed | `Decoding.ReadIdAsWritten` (shown by `Decoding.EmptyIdArrayPanics`) | `Decoding.ReadId` |
