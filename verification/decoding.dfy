/** Turning a search-engine response into inventory devices
    (`storeToInventoryDevs`, `storeToInventoryDev` and `parseTime` in
    app/reporting/reporting.go). */
module Decoding {
  import opened Wrappers
  import opened Values
  import opened Types
  import opened KeyWalk

  const ErrHitsMap := Error("can't process store hits map")
  const ErrTotalStruct := Error("can't process total hits struct")
  const ErrTotalValue := Error("can't process total hits value")
  const ErrHitsSlice := Error("can't process store hits slice")
  const ErrHit := Error("can't process individual hit")
  const ErrHitBody := Error("can't process hit's '_source' nor 'fields'")
  const ErrDeviceID := Error("can't parse device id as neither single value nor array")

  /** Go's `([]inventory.Device, int, error)` triple; `None` is a nil slice. */
  datatype Reply = Reply(devices: Option<seq<Device>>, total: int, err: Option<Error>)

  function Fail(e: Error): Reply {
    Reply(None, 0, Some(e))
  }

  // ---------------------------------------------------------------------
  // Timestamps

  /** `parseTime`: a value that is not a string is read as "" (the failed
      type assertion's zero value) and given to the parser like any other;
      a parse failure yields the zero time. It never fails. */
  function ParseTime(x: Externals, v: Json): (t: Time)
    ensures v.JStr? && x.parseRfc3339(v.s).Some? ==> t == x.parseRfc3339(v.s).value
    ensures v.JStr? && x.parseRfc3339(v.s).None? ==> t == ZeroTime
    ensures !v.JStr? && x.parseRfc3339("").Some? ==> t == x.parseRfc3339("").value
    ensures !v.JStr? && x.parseRfc3339("").None? ==> t == ZeroTime
  {
    var s := if v.JStr? then v.s else "";
    match x.parseRfc3339(s)
    case Some(t) => t
    case None => ZeroTime
  }

  predicate IsSystemAttr(a: DeviceAttribute, name: string) {
    a.scope == ScopeSystem && a.name == name
  }

  /** `i` is the last attribute that is the system attribute `name`. */
  predicate LastMatch(attrs: seq<DeviceAttribute>, i: int, name: string) {
    && 0 <= i < |attrs|
    && IsSystemAttr(attrs[i], name)
    && forall j :: i < j < |attrs| ==> !IsSystemAttr(attrs[j], name)
  }

  /** How matches in `attrs` sit in its tail. */
  lemma MatchShift(attrs: seq<DeviceAttribute>, name: string)
    requires attrs != []
    ensures (forall i :: 0 <= i < |attrs| ==> !IsSystemAttr(attrs[i], name)) ==>
      forall i :: 0 <= i < |attrs[1..]| ==> !IsSystemAttr(attrs[1..][i], name)
    ensures LastMatch(attrs, 0, name) ==> forall i :: 0 <= i < |attrs[1..]| ==> !IsSystemAttr(attrs[1..][i], name)
    ensures forall i :: LastMatch(attrs, i, name) && 1 <= i ==> LastMatch(attrs[1..], i - 1, name)
  {
    assert forall i :: 1 <= i < |attrs| ==> attrs[1..][i - 1] == attrs[i];
  }

  /** The decoding loop's timestamp updates over the attributes it collects:
      each system attribute `name` overwrites `current` with its parsed
      value. So the last such attribute decides; with none, `current` stays. */
  function Stamp(x: Externals, attrs: seq<DeviceAttribute>, name: string, current: Time): (t: Time)
    ensures (forall i :: 0 <= i < |attrs| ==> !IsSystemAttr(attrs[i], name)) ==> t == current
    ensures forall i :: LastMatch(attrs, i, name) ==> t == ParseTime(x, attrs[i].value)
    decreases |attrs|
  {
    if attrs == [] then current
    else
      var next := if IsSystemAttr(attrs[0], name) then ParseTime(x, attrs[0].value) else current;
      MatchShift(attrs, name);
      Stamp(x, attrs[1..], name, next)
  }

  // ---------------------------------------------------------------------
  // One hit

  /** A hit's body: `_source` when it is an object, else `fields`. */
  function HitBody(hit: map<string, Json>): Result<map<string, Json>, Error> {
    if Member(hit, "_source").JObj? then Success(Member(hit, "_source").fields)
    else if Member(hit, "fields").JObj? then Success(Member(hit, "fields").fields)
    else Failure(ErrHitBody)
  }

  /** The device id: a string, or an array whose first element is a string.
      An empty array is an error (see `ReadIdAsWritten` for the code as
      written, which indexes it). */
  function ReadId(v: Json): (r: Result<string, Error>)
    ensures r.Success? <==> v.JStr? || (v.JArr? && |v.items| > 0 && v.items[0].JStr?)
    ensures r.Success? ==> r.value == if v.JStr? then v.s else v.items[0].s
    ensures r.Failure? ==> r.error == ErrDeviceID
  {
    match v
    case JStr(id) => Success(id)
    case JArr(xs) =>
      if |xs| > 0 && xs[0].JStr? then Success(xs[0].s) else Failure(ErrDeviceID)
    case _ => Failure(ErrDeviceID)
  }

  /** How the id read can end as written: a returned error, or the run-time
      panic of indexing an empty slice. */
  datatype Fault = Raised(err: Error) | IndexOutOfRange

  /** Lines 185-200 as written: `idarr[0]` is evaluated without checking the
      array's length. */
  function ReadIdAsWritten(v: Json): Result<string, Fault> {
    match v
    case JStr(id) => Success(id)
    case JArr(xs) =>
      if |xs| == 0 then Failure(IndexOutOfRange)
      else if xs[0].JStr? then Success(xs[0].s)
      else Failure(Raised(ErrDeviceID))
    case _ => Failure(Raised(ErrDeviceID))
  }

  /** On an empty id array the code as written panics instead of returning
      the id error that every other unusable id shape gets. */
  lemma EmptyIdArrayPanics()
    ensures ReadIdAsWritten(JArr([])) == Failure(IndexOutOfRange)
    ensures ReadId(JArr([])) == Failure(ErrDeviceID)
  {
  }

  /** Everywhere else the corrected read agrees with the code as written. */
  lemma ReadIdAgreesElsewhere(v: Json)
    requires v != JArr([])
    ensures ReadIdAsWritten(v).Success? <==> ReadId(v).Success?
    ensures ReadId(v).Success? ==> ReadIdAsWritten(v).value == ReadId(v).value
    ensures ReadId(v).Failure? ==> ReadIdAsWritten(v) == Failure(Raised(ReadId(v).error))
  {
  }

  /** One iteration of the loop over the body's keys: a key that does not
      parse aborts, otherwise it yields the attribute it stands for, if any. */
  function AttrStep(x: Externals, src: map<string, Json>, k: string): Result<Option<DeviceAttribute>, Error> {
    match x.maybeParseAttr(k)
    case Failure(e) => Failure(e)
    case Success(_) => Success(AttrOf(x, src, k))
  }

  /** The attribute key `k` of the body stands for, if any: a key that
      parses to scope `s` and a non-empty name `n` is an attribute named
      `Redot(n)` in scope `s`, whose one-element-array value is unwrapped;
      a key with an empty name stands for nothing. */
  function AttrOf(x: Externals, src: map<string, Json>, k: string): Option<DeviceAttribute> {
    var p := x.maybeParseAttr(k);
    if p.Success? && p.value.name != "" then Some(DeviceAttribute(x.redot(p.value.name), p.value.scope, Unwrap(Member(src, k))))
    else None
  }

  function AttrSteps(x: Externals, src: map<string, Json>): string -> Result<Option<DeviceAttribute>, Error> {
    k => AttrStep(x, src, k)
  }

  /** The attributes collected from a hit body visited in order `keys`. */
  function HitAttributes(x: Externals, src: map<string, Json>, keys: seq<string>): Result<seq<DeviceAttribute>, Error> {
    Collect(keys, AttrSteps(x, src))
  }

  /** `storeToInventoryDev`. `order` is the order in which the body's keys
      are visited. */
  function StoreToInventoryDev(
    x: Externals, mapper: Mapper, tenantID: string, hit: Json, order: KeyOrder
  ): (r: Result<Device, Error>)
    ensures !hit.JObj? ==> r == Failure(ErrHit)
    ensures hit.JObj? && HitBody(hit.fields).Failure? ==> r == Failure(ErrHitBody)
    ensures hit.JObj? && HitBody(hit.fields).Success? ==>
      var src := HitBody(hit.fields).value;
      var attrs := HitAttributes(x, src, order(src));
      && (ReadId(Member(src, "id")).Failure? ==> r == Failure(ErrDeviceID))
      && (ReadId(Member(src, "id")).Success? && attrs.Failure? ==> r == Failure(attrs.error))
      && (ReadId(Member(src, "id")).Success? && attrs.Success? && mapper.reverseInventoryAttributes(tenantID, attrs.value).Failure?
          ==> r == Failure(mapper.reverseInventoryAttributes(tenantID, attrs.value).error))
      && (r.Success? <==>
            ReadId(Member(src, "id")).Success? && attrs.Success? && mapper.reverseInventoryAttributes(tenantID, attrs.value).Success?)
    ensures r.Success? ==>
      && hit.JObj? && HitBody(hit.fields).Success?
      && var src := HitBody(hit.fields).value;
      && ReadId(Member(src, "id")) == Success(r.value.id)
      && HitAttributes(x, src, order(src)).Success?
      && var attrs := HitAttributes(x, src, order(src)).value;
      && mapper.reverseInventoryAttributes(tenantID, attrs) == Success(r.value.attributes)
      && r.value.createdTs == Stamp(x, attrs, AttrNameCreatedAt, ZeroTime)
      && r.value.updatedTs == Stamp(x, attrs, AttrNameUpdatedAt, ZeroTime)
  {
    if !hit.JObj? then Failure(ErrHit)
    else
      var src :- HitBody(hit.fields);
      var id :- ReadId(Member(src, "id"));
      var attrs :- HitAttributes(x, src, order(src));
      var mapped :- mapper.reverseInventoryAttributes(tenantID, attrs);
      Success(Device(
        id,
        Stamp(x, attrs, AttrNameCreatedAt, ZeroTime),
        Stamp(x, attrs, AttrNameUpdatedAt, ZeroTime),
        mapped))
  }

  // ---------------------------------------------------------------------
  // The response

  /** The response envelope: `hits` an object, `hits.total` an object,
      `hits.total.value` a number, `hits.hits` an array, checked in that
      order. Yields the total and the hits. */
  function Envelope(storeRes: map<string, Json>): (r: Result<(int, seq<Json>), Error>)
    ensures !Member(storeRes, "hits").JObj? ==> r == Failure(ErrHitsMap)
    ensures Member(storeRes, "hits").JObj? ==>
      var hitsM := Member(storeRes, "hits").fields;
      && (!Member(hitsM, "total").JObj? ==> r == Failure(ErrTotalStruct))
      && (Member(hitsM, "total").JObj? && !Member(Member(hitsM, "total").fields, "value").JNum? ==> r == Failure(ErrTotalValue))
      && (Member(hitsM, "total").JObj? && Member(Member(hitsM, "total").fields, "value").JNum? && !Member(hitsM, "hits").JArr?
          ==> r == Failure(ErrHitsSlice))
      && (r.Success? <==> Member(hitsM, "total").JObj? && Member(Member(hitsM, "total").fields, "value").JNum? && Member(hitsM, "hits").JArr?)
      && (r.Success? ==> r.value == (Member(Member(hitsM, "total").fields, "value").n, Member(hitsM, "hits").items))
  {
    match Member(storeRes, "hits")
    case JObj(hitsM) => (
      match Member(hitsM, "total")
      case JObj(totalM) => (
        match Member(totalM, "value")
        case JNum(total) => (
          match Member(hitsM, "hits")
          case JArr(hits) => Success((total, hits))
          case _ => Failure(ErrHitsSlice))
        case _ => Failure(ErrTotalValue))
      case _ => Failure(ErrTotalStruct))
    case _ => Failure(ErrHitsMap)
  }

  /** The loop over `hits.hits` from index `from` on, `decode(i, hit)`
      decoding hit `i`. The first hit that fails aborts the loop. */
  function DecodeHits(hits: seq<Json>, decode: (nat, Json) -> Result<Device, Error>, from: nat): (r: Result<seq<Device>, Error>)
    requires from <= |hits|
    ensures r.Success? <==> forall i :: from <= i < |hits| ==> decode(i, hits[i]).Success?
    ensures r.Success? ==>
      && |r.value| == |hits| - from
      && forall i :: from <= i < |hits| ==> decode(i, hits[i]) == Success(r.value[i - from])
    ensures r.Failure? ==> exists i ::
      && from <= i < |hits|
      && decode(i, hits[i]) == Failure(r.error)
      && forall j :: from <= j < i ==> decode(j, hits[j]).Success?
    ensures forall i ::
      && from <= i < |hits| && decode(i, hits[i]).Failure?
      && (forall j :: from <= j < i ==> decode(j, hits[j]).Success?)
      ==> r == Failure(decode(i, hits[i]).error)
    decreases |hits| - from
  {
    if from == |hits| then Success([])
    else
      match decode(from, hits[from])
      case Failure(e) => Failure(e)
      case Success(dev) =>
        match DecodeHits(hits, decode, from + 1)
        case Failure(e) => Failure(e)
        case Success(rest) => Success([dev] + rest)
  }

  /** `storeToInventoryDevs`: all devices in hit order and the total, or nil,
      0 and the first error, never a partial list. */
  function StoreToInventoryDevs(
    x: Externals, mapper: Mapper, tenantID: string, storeRes: map<string, Json>, orders: nat -> KeyOrder
  ): (r: Reply)
    ensures r.err.Some? <==> r.devices.None?
    ensures r.err.Some? ==> r.total == 0
    ensures Envelope(storeRes).Failure? ==> r == Fail(Envelope(storeRes).error)
    ensures Envelope(storeRes).Success? ==>
      var (total, hits) := Envelope(storeRes).value;
      && (r.err.None? <==> forall i :: 0 <= i < |hits| ==> StoreToInventoryDev(x, mapper, tenantID, hits[i], orders(i)).Success?)
      && (forall i ::
            && 0 <= i < |hits| && StoreToInventoryDev(x, mapper, tenantID, hits[i], orders(i)).Failure?
            && (forall j :: 0 <= j < i ==> StoreToInventoryDev(x, mapper, tenantID, hits[j], orders(j)).Success?)
            ==> r == Fail(StoreToInventoryDev(x, mapper, tenantID, hits[i], orders(i)).error))
      && (r.err.None? ==>
            && r.total == total
            && |r.devices.value| == |hits|
            && forall i :: 0 <= i < |hits| ==>
                 StoreToInventoryDev(x, mapper, tenantID, hits[i], orders(i)) == Success(r.devices.value[i]))
  {
    match Envelope(storeRes)
    case Failure(e) => Fail(e)
    case Success((total, hits)) =>
      match DecodeHits(hits, (i: nat, h: Json) => StoreToInventoryDev(x, mapper, tenantID, h, orders(i)), 0)
      case Failure(e) => Fail(e)
      case Success(devs) => Reply(Some(devs), total, None)
  }

  // ---------------------------------------------------------------------
  // Properties of hit decoding

  /** Over a full enumeration of the body: the hit's attributes fail iff some
      key of the body does not parse; otherwise an attribute is collected iff
      some key parses to scope `s` and non-empty name `n`, and it is then
      named `Redot(n)`, scoped `s`, and carries the key's value with a
      one-element array unwrapped. There are at most as many attributes as
      keys. */
  lemma HitAttributesSpec(x: Externals, src: map<string, Json>, keys: seq<string>)
    requires Enumerates(keys, src)
    ensures HitAttributes(x, src, keys).Success? <==> forall k :: k in src ==> x.maybeParseAttr(k).Success?
    ensures HitAttributes(x, src, keys).Success? ==>
      && |HitAttributes(x, src, keys).value| <= |src|
      && forall a :: a in HitAttributes(x, src, keys).value <==>
           exists k :: k in src && x.maybeParseAttr(k).Success? && x.maybeParseAttr(k).value.name != ""
                       && a == DeviceAttribute(x.redot(x.maybeParseAttr(k).value.name), x.maybeParseAttr(k).value.scope, Unwrap(src[k]))
    ensures HitAttributes(x, src, keys).Success? ==>
      && |HitAttributes(x, src, keys).value| == |set k | k in src && x.maybeParseAttr(k).Success? && x.maybeParseAttr(k).value.name != ""|
      && forall a :: multiset(HitAttributes(x, src, keys).value)[a] == |set k | k in src && AttrOf(x, src, k) == Some(a)|
  {
    var step := AttrSteps(x, src);
    CollectFailure(keys, step);
    if HitAttributes(x, src, keys).Success? {
      HitAttributesMembers(x, src, keys);
      EnumerationLength(keys, src);
      HitAttributesCount(x, src, keys);
    } else {
      var i :| 0 <= i < |keys| && step(keys[i]).Failure?;
      assert keys[i] in src;
    }
  }

  /** An attribute is collected iff some key of the body stands for it. */
  lemma HitAttributesMembers(x: Externals, src: map<string, Json>, keys: seq<string>)
    requires Enumerates(keys, src) && HitAttributes(x, src, keys).Success?
    ensures |HitAttributes(x, src, keys).value| <= |keys|
    ensures forall a :: a in HitAttributes(x, src, keys).value <==>
      exists k :: k in src && x.maybeParseAttr(k).Success? && x.maybeParseAttr(k).value.name != ""
                  && a == DeviceAttribute(x.redot(x.maybeParseAttr(k).value.name), x.maybeParseAttr(k).value.scope, Unwrap(src[k]))
  {
    var step := AttrSteps(x, src);
    CollectItems(keys, step);
    forall k | k in src ensures step(k) == AttrStep(x, src, k) && Member(src, k) == src[k] {
    }
  }

  /** One attribute per key that parses to a non-empty name: keys standing
      for equal attributes give equal, separate entries. */
  lemma HitAttributesCount(x: Externals, src: map<string, Json>, keys: seq<string>)
    requires Enumerates(keys, src) && HitAttributes(x, src, keys).Success?
    ensures |HitAttributes(x, src, keys).value| == |set k | k in src && x.maybeParseAttr(k).Success? && x.maybeParseAttr(k).value.name != ""|
    ensures forall a :: multiset(HitAttributes(x, src, keys).value)[a] == |set k | k in src && AttrOf(x, src, k) == Some(a)|
  {
    HitAttributesLength(x, src, keys);
    forall a
      ensures multiset(HitAttributes(x, src, keys).value)[a] == |set k | k in src && AttrOf(x, src, k) == Some(a)|
    {
      HitAttributesMultiplicity(x, src, keys, a);
    }
  }

  lemma HitAttributesLength(x: Externals, src: map<string, Json>, keys: seq<string>)
    requires Enumerates(keys, src) && HitAttributes(x, src, keys).Success?
    ensures |HitAttributes(x, src, keys).value| == |set k | k in src && x.maybeParseAttr(k).Success? && x.maybeParseAttr(k).value.name != ""|
  {
    var step := AttrSteps(x, src);
    CollectLength(keys, step);
    var s2 := set k | k in src && x.maybeParseAttr(k).Success? && x.maybeParseAttr(k).value.name != "";
    forall k ensures k in Emitters(keys, step) <==> k in s2 {
      if k in src {
        assert step(k) == AttrStep(x, src, k);
      }
    }
    assert Emitters(keys, step) == s2;
  }

  lemma HitAttributesMultiplicity(x: Externals, src: map<string, Json>, keys: seq<string>, a: DeviceAttribute)
    requires Enumerates(keys, src) && HitAttributes(x, src, keys).Success?
    ensures multiset(HitAttributes(x, src, keys).value)[a] == |set k | k in src && AttrOf(x, src, k) == Some(a)|
  {
    var step := AttrSteps(x, src);
    CollectMultiplicity(keys, step, a);
    var s2 := set k | k in src && AttrOf(x, src, k) == Some(a);
    forall k ensures k in EmittersOf(keys, step, a) <==> k in s2 {
      if k in src {
        assert step(k) == AttrStep(x, src, k);
        assert Member(src, k) == src[k];
      }
    }
    assert EmittersOf(keys, step, a) == s2;
  }


  /** The order in which a body's keys are visited decides neither whether
      the hit decodes nor which attributes (with multiplicity) go to the
      mapper; only their order. */
  lemma HitAttributesOrderIndependent(x: Externals, src: map<string, Json>, keys1: seq<string>, keys2: seq<string>)
    requires Enumerates(keys1, src) && Enumerates(keys2, src)
    ensures HitAttributes(x, src, keys1).Success? <==> HitAttributes(x, src, keys2).Success?
    ensures HitAttributes(x, src, keys1).Success? ==>
      multiset(HitAttributes(x, src, keys1).value) == multiset(HitAttributes(x, src, keys2).value)
  {
    EnumerationsArePermutations(keys1, keys2, src);
    CollectPermutation(keys1, keys2, AttrSteps(x, src));
  }

  /** Timestamp parsing is best-effort: replacing the RFC 3339 parser by any
      other changes neither whether a hit decodes, nor its id, nor its
      attributes. */
  lemma TimestampsNeverFail(x: Externals, p: string -> Option<Time>, mapper: Mapper, tenantID: string, hit: Json, order: KeyOrder)
    ensures var r1 := StoreToInventoryDev(x, mapper, tenantID, hit, order);
            var r2 := StoreToInventoryDev(x.(parseRfc3339 := p), mapper, tenantID, hit, order);
            && (r1.Success? <==> r2.Success?)
            && (r1.Failure? ==> r1 == r2)
            && (r1.Success? ==> r1.value.id == r2.value.id && r1.value.attributes == r2.value.attributes)
  {
    var y := x.(parseRfc3339 := p);
    if hit.JObj? && HitBody(hit.fields).Success? {
      var src := HitBody(hit.fields).value;
      CollectCongruence(order(src), AttrSteps(x, src), AttrSteps(y, src));
    }
  }

  /** `_source` wins: a hit whose `_source` is an object decodes exactly as
      the hit holding only that `_source`, whatever its `fields` holds; a
      hit whose `_source` is anything else decodes exactly as the hit
      holding only its `fields`. */
  lemma SourceBeforeFields(x: Externals, mapper: Mapper, tenantID: string, hit: map<string, Json>, order: KeyOrder)
    ensures Member(hit, "_source").JObj? ==>
      StoreToInventoryDev(x, mapper, tenantID, JObj(hit), order)
        == StoreToInventoryDev(x, mapper, tenantID, JObj(map["_source" := Member(hit, "_source")]), order)
    ensures !Member(hit, "_source").JObj? ==>
      StoreToInventoryDev(x, mapper, tenantID, JObj(hit), order)
        == StoreToInventoryDev(x, mapper, tenantID, JObj(map["fields" := Member(hit, "fields")]), order)
  {
    var only := if Member(hit, "_source").JObj? then map["_source" := Member(hit, "_source")]
                else map["fields" := Member(hit, "fields")];
    assert HitBody(only) == HitBody(hit);
  }

  /** A body read through `fields` wraps every value in a one-element array. */
  function Wrapped(src: map<string, Json>): map<string, Json> {
    map k | k in src :: JArr([src[k]])
  }

  /** A hit whose body comes as `_source` decodes to the same device as the
      same body returned through `fields` (every value array-wrapped, the id
      included), as long as no value is itself an array and the keys are
      visited in the same order. */
  lemma FieldsFormMatchesSourceForm(x: Externals, mapper: Mapper, tenantID: string, src: map<string, Json>, order: KeyOrder)
    requires forall k :: k in src ==> !src[k].JArr?
    requires order(Wrapped(src)) == order(src)
    ensures StoreToInventoryDev(x, mapper, tenantID, JObj(map["fields" := JObj(Wrapped(src))]), order)
         == StoreToInventoryDev(x, mapper, tenantID, JObj(map["_source" := JObj(src)]), order)
  {
    var w := Wrapped(src);
    assert HitBody(map["fields" := JObj(w)]) == Success(w);
    assert HitBody(map["_source" := JObj(src)]) == Success(src);
    assert ReadId(Member(w, "id")) == ReadId(Member(src, "id"));
    forall k ensures AttrStep(x, w, k) == AttrStep(x, src, k) {
      assert Unwrap(Member(w, k)) == Unwrap(Member(src, k));
    }
    CollectCongruence(order(src), AttrSteps(x, w), AttrSteps(x, src));
  }

  /** A `fields`-style hit: `{"id": ["dev1"], "inventory.attr.cpu": ["4"]}`,
      with a key parser that reads the second key as `inventory`/`cpu` and
      the id key as no attribute, decodes to device `dev1` whose mapper input
      is the single attribute cpu = "4" in scope `inventory`. */
  lemma FieldsHitExample(x: Externals, mapper: Mapper, tenantID: string, order: KeyOrder)
    requires x.maybeParseAttr("id") == Success(AttrName("", ""))
    requires x.maybeParseAttr("inventory.attr.cpu") == Success(AttrName("inventory", "cpu"))
    requires x.redot("cpu") == "cpu"
    requires var src := map["id" := JArr([JStr("dev1")]), "inventory.attr.cpu" := JArr([JStr("4")])];
      order(src) == ["id", "inventory.attr.cpu"]
    requires mapper.reverseInventoryAttributes(tenantID, [DeviceAttribute("cpu", "inventory", JStr("4"))]).Success?
    ensures var src := map["id" := JArr([JStr("dev1")]), "inventory.attr.cpu" := JArr([JStr("4")])];
      var r := StoreToInventoryDev(x, mapper, tenantID, JObj(map["fields" := JObj(src)]), order);
      && r.Success?
      && r.value.id == "dev1"
      && HitAttributes(x, src, order(src)) == Success([DeviceAttribute("cpu", "inventory", JStr("4"))])
  {
    var src := map["id" := JArr([JStr("dev1")]), "inventory.attr.cpu" := JArr([JStr("4")])];
    ExampleHitAttributes(x, src);
    assert HitAttributes(x, src, order(src)) == Success([DeviceAttribute("cpu", "inventory", JStr("4"))]);
    var hit := map["fields" := JObj(src)];
    assert Member(hit, "_source") == JNull;
    assert HitBody(hit) == Success(src);
    assert Member(src, "id") == JArr([JStr("dev1")]);
    assert ReadId(Member(src, "id")) == Success("dev1");
  }

  /** The attribute walk of the example hit: the id key is skipped, the cpu
      key is collected. */
  lemma ExampleHitAttributes(x: Externals, src: map<string, Json>)
    requires x.maybeParseAttr("id") == Success(AttrName("", ""))
    requires x.maybeParseAttr("inventory.attr.cpu") == Success(AttrName("inventory", "cpu"))
    requires x.redot("cpu") == "cpu"
    requires "inventory.attr.cpu" in src && src["inventory.attr.cpu"] == JArr([JStr("4")])
    ensures HitAttributes(x, src, ["id", "inventory.attr.cpu"]) == Success([DeviceAttribute("cpu", "inventory", JStr("4"))])
  {
    var step := AttrSteps(x, src);
    assert step("id") == Success(None);
    assert step("inventory.attr.cpu") == Success(Some(DeviceAttribute("cpu", "inventory", JStr("4"))));
    var keys := ["id", "inventory.attr.cpu"];
    assert keys == ["id"] + ["inventory.attr.cpu"];
    CollectAppend(["id"], ["inventory.attr.cpu"], step);
    CollectSingle("id", step);
    CollectSingle("inventory.attr.cpu", step);
    var attrs := [DeviceAttribute("cpu", "inventory", JStr("4"))];
    assert Collect(keys, step).value == [] + attrs;
    assert [] + attrs == attrs;
    assert HitAttributes(x, src, keys) == Collect(keys, step);
  }

}
