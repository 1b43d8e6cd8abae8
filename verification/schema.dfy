/** Listing the attributes a tenant can search on (`GetSearchableInvAttrs`
    in app/reporting/reporting.go): the keys under the index's
    `mappings.properties`, parsed into filter attributes and sorted. */
module Schema {
  import opened Wrappers
  import opened Values
  import opened Types
  import opened KeyWalk
  import opened GoStrings

  const ErrMappings := Error("can't parse index mappings")
  const ErrProperties := Error("can't parse index properties")

  // ---------------------------------------------------------------------
  // The sort order

  /** The `sort.Slice` comparator: `a` goes before `b` when its scope is
      smaller, or the scopes are equal and its name is smaller. */
  predicate Before(a: FilterAttribute, b: FilterAttribute) {
    Less(a.scope, b.scope) || (a.scope == b.scope && Less(a.name, b.name))
  }

  predicate SameKey(a: FilterAttribute, b: FilterAttribute) {
    a.scope == b.scope && a.name == b.name
  }

  /** No element goes before one that precedes it. */
  predicate Sorted(xs: seq<FilterAttribute>) {
    forall i, j :: 0 <= i < j < |xs| ==> !Before(xs[j], xs[i])
  }

  lemma BeforeAsymmetric(a: FilterAttribute, b: FilterAttribute)
    requires Before(a, b)
    ensures !Before(b, a)
  {
    if Less(a.scope, b.scope) {
      LessAsymmetric(a.scope, b.scope);
      LessIrreflexive(a.scope);
    } else {
      LessAsymmetric(a.name, b.name);
      LessIrreflexive(a.scope);
    }
  }

  lemma BeforeTransitive(a: FilterAttribute, b: FilterAttribute, c: FilterAttribute)
    requires Before(a, b) && Before(b, c)
    ensures Before(a, c)
  {
    if Less(a.scope, b.scope) && Less(b.scope, c.scope) {
      LessTransitive(a.scope, b.scope, c.scope);
    } else if a.scope == b.scope && b.scope == c.scope {
      LessTransitive(a.name, b.name, c.name);
    }
  }

  /** The comparator orders any two entries with different keys. */
  lemma BeforeTotal(a: FilterAttribute, b: FilterAttribute)
    ensures Before(a, b) || Before(b, a) || SameKey(a, b)
  {
    LessTotal(a.scope, b.scope);
    LessTotal(a.name, b.name);
  }

  /** "Does not go after" is transitive. */
  lemma NotBeforeTransitive(a: FilterAttribute, b: FilterAttribute, c: FilterAttribute)
    requires !Before(b, a) && !Before(c, b)
    ensures !Before(c, a)
  {
    BeforeTotal(a, b);
    if Before(c, a) {
      if Before(a, b) {
        BeforeTransitive(c, a, b);
      }
    }
  }

  // ---------------------------------------------------------------------
  // Sorting

  /** A head no later than everything after it extends a sorted list. */
  lemma ConsSorted(y: FilterAttribute, xs: seq<FilterAttribute>)
    requires Sorted(xs)
    requires forall k :: 0 <= k < |xs| ==> !Before(xs[k], y)
    ensures Sorted([y] + xs)
  {
  }

  /** An element not after the head of a sorted list is not after any of it. */
  lemma NotAfterHead(x: FilterAttribute, xs: seq<FilterAttribute>)
    requires Sorted(xs) && (xs == [] || !Before(xs[0], x))
    ensures forall j :: 0 <= j < |xs| ==> !Before(xs[j], x)
  {
    forall j | 0 < j < |xs| ensures !Before(xs[j], x) {
      NotBeforeTransitive(x, xs[0], xs[j]);
    }
  }

  /** The head of a sorted list, later than `x`, is not after anything in a
      permutation of its tail with `x` added. */
  lemma HeadBelowInsert(x: FilterAttribute, xs: seq<FilterAttribute>, rest: seq<FilterAttribute>)
    requires Sorted(xs) && xs != [] && Before(xs[0], x)
    requires multiset(rest) == multiset(xs[1..]) + multiset{x}
    ensures forall k :: 0 <= k < |rest| ==> !Before(rest[k], xs[0])
  {
    forall k | 0 <= k < |rest| ensures !Before(rest[k], xs[0]) {
      assert rest[k] in multiset(rest);
      if rest[k] == x {
        BeforeAsymmetric(xs[0], x);
      } else {
        assert rest[k] in multiset(xs[1..]);
        var j :| 0 <= j < |xs[1..]| && xs[1..][j] == rest[k];
        assert xs[j + 1] == rest[k];
      }
    }
  }

  function Insert(x: FilterAttribute, xs: seq<FilterAttribute>): (r: seq<FilterAttribute>)
    requires Sorted(xs)
    ensures Sorted(r)
    ensures multiset(r) == multiset(xs) + multiset{x}
    decreases |xs|
  {
    if xs == [] || !Before(xs[0], x) then
      NotAfterHead(x, xs);
      ConsSorted(x, xs);
      [x] + xs
    else
      var rest := Insert(x, xs[1..]);
      assert xs == [xs[0]] + xs[1..];
      HeadBelowInsert(x, xs, rest);
      ConsSorted(xs[0], rest);
      [xs[0]] + rest
  }


  /** The entries in comparator order. */
  function SortAttrs(xs: seq<FilterAttribute>): (r: seq<FilterAttribute>)
    ensures Sorted(r)
    ensures multiset(r) == multiset(xs)
  {
    if xs == [] then []
    else
      assert xs == [xs[0]] + xs[1..];
      Insert(xs[0], SortAttrs(xs[1..]))
  }

  /** Two sorted arrangements of the same entries are equal when entries with
      the same key are equal (here: every count is 1). So the unstable
      `sort.Slice` has exactly one possible outcome, `SortAttrs`'s. */
  lemma {:induction false} SortedUnique(a: seq<FilterAttribute>, b: seq<FilterAttribute>)
    requires Sorted(a) && Sorted(b) && multiset(a) == multiset(b)
    requires forall i :: 0 <= i < |a| ==> a[i].count == 1
    ensures a == b
  {
    assert |a| == |multiset(a)| == |multiset(b)| == |b|;
    if a != [] {
      SortedHeadFirst(b, a[0]);
      SortedHeadFirst(a, b[0]);
      BeforeTotal(a[0], b[0]);
      assert b[0] in multiset(a);
      assert b[0].count == 1;
      assert a[0] == b[0];
      SortedTail(a);
      SortedTail(b);
      assert a == [a[0]] + a[1..] && b == [b[0]] + b[1..];
      assert multiset(a[1..]) == multiset(b[1..]) by {
        assert multiset(a[1..]) == multiset(a) - multiset{a[0]};
        assert multiset(b[1..]) == multiset(b) - multiset{b[0]};
      }
      SortedUnique(a[1..], b[1..]);
    }
  }

  /** Nothing in a sorted sequence goes before its head. */
  lemma SortedHeadFirst(xs: seq<FilterAttribute>, x: FilterAttribute)
    requires Sorted(xs) && x in multiset(xs)
    ensures !Before(x, xs[0])
  {
    var i :| 0 <= i < |xs| && xs[i] == x;
    if i > 0 {
      assert !Before(xs[i], xs[0]);
    } else {
      LessIrreflexive(x.scope);
      LessIrreflexive(x.name);
    }
  }

  lemma SortedTail(xs: seq<FilterAttribute>)
    requires Sorted(xs) && xs != []
    ensures Sorted(xs[1..])
  {
    forall i, j | 0 <= i < j < |xs[1..]| ensures !Before(xs[1..][j], xs[1..][i]) {
      assert xs[1..][j] == xs[j + 1] && xs[1..][i] == xs[i + 1];
    }
  }

  // ---------------------------------------------------------------------
  // The listing

  /** `mappings.properties` of the index description; a missing or
      non-object level is an error naming that level. */
  function Properties(index: map<string, Json>): (r: Result<map<string, Json>, Error>)
    ensures !Member(index, "mappings").JObj? ==> r == Failure(ErrMappings)
    ensures Member(index, "mappings").JObj? ==>
      var m := Member(index, "mappings").fields;
      && (!Member(m, "properties").JObj? ==> r == Failure(ErrProperties))
      && (Member(m, "properties").JObj? ==> r == Success(Member(m, "properties").fields))
  {
    match Member(index, "mappings")
    case JObj(m) => (
      match Member(m, "properties")
      case JObj(props) => Success(props)
      case _ => Failure(ErrProperties))
    case _ => Failure(ErrMappings)
  }

  /** One property key: a parse error aborts, otherwise the key yields the
      entry it stands for, if any. */
  function PropertyStep(x: Externals, k: string): Result<Option<FilterAttribute>, Error> {
    match x.maybeParseAttr(k)
    case Failure(e) => Failure(e)
    case Success(_) => Success(Entry(x, k))
  }

  /** The entry property key `k` stands for, if any: a key that parses to a
      non-empty name is one searchable attribute with its raw (not
      re-dotted) name and count 1; an empty name stands for nothing. */
  function Entry(x: Externals, k: string): Option<FilterAttribute> {
    var p := x.maybeParseAttr(k);
    if p.Success? && p.value.name != "" then Some(FilterAttribute(p.value.name, p.value.scope, 1)) else None
  }

  function PropertySteps(x: Externals): string -> Result<Option<FilterAttribute>, Error> {
    k => PropertyStep(x, k)
  }

  /** `GetSearchableInvAttrs`: the store's index description for `tid`,
      whose properties are visited in order `order`. */
  function GetSearchableInvAttrs(x: Externals, store: Store, tid: string, order: KeyOrder): (r: Result<seq<FilterAttribute>, Error>)
    ensures store.getDevicesIndexMapping(tid).Failure? ==> r == Failure(store.getDevicesIndexMapping(tid).error)
    ensures store.getDevicesIndexMapping(tid).Success? && Properties(store.getDevicesIndexMapping(tid).value).Failure? ==>
      r == Failure(Properties(store.getDevicesIndexMapping(tid).value).error)
    ensures r.Success? ==> Sorted(r.value)
  {
    var index :- store.getDevicesIndexMapping(tid);
    var props :- Properties(index);
    ListProperties(x, order(props))
  }

  /** The loop over the property keys, visited in order `keys`, and the sort. */
  function ListProperties(x: Externals, keys: seq<string>): (r: Result<seq<FilterAttribute>, Error>)
    ensures r.Success? ==> Sorted(r.value)
  {
    var entries :- Collect(keys, PropertySteps(x));
    Success(SortAttrs(entries))
  }

  // ---------------------------------------------------------------------
  // Properties of the listing

  /** Every collected entry has count 1. */
  lemma EntriesCountOne(x: Externals, keys: seq<string>)
    requires Collect(keys, PropertySteps(x)).Success?
    ensures forall i :: 0 <= i < |Collect(keys, PropertySteps(x)).value| ==> Collect(keys, PropertySteps(x)).value[i].count == 1
  {
    var es := Collect(keys, PropertySteps(x)).value;
    CollectItems(keys, PropertySteps(x));
    forall i | 0 <= i < |es| ensures es[i].count == 1 {
      assert es[i] in es;
    }
  }

  /** Over a full enumeration of the properties: the listing fails iff some
      property key does not parse; otherwise it holds, sorted, one entry per
      property key that parses to a non-empty name, that name (raw) and scope
      with count 1, and nothing else, so no more entries than property
      keys. */
  lemma ListPropertiesSpec(x: Externals, props: map<string, Json>, keys: seq<string>)
    requires Enumerates(keys, props)
    ensures var r := ListProperties(x, keys);
      && (r.Success? <==> forall k :: k in props ==> x.maybeParseAttr(k).Success?)
      && (r.Success? ==>
            && Sorted(r.value)
            && |r.value| <= |props|
            && (forall i :: 0 <= i < |r.value| ==> r.value[i].count == 1)
            && (forall f :: f in r.value <==>
                 exists k :: k in props && x.maybeParseAttr(k) == Success(AttrName(f.scope, f.name)) && f.name != "" && f.count == 1)
            && |r.value| == |set k | k in props && x.maybeParseAttr(k).Success? && x.maybeParseAttr(k).value.name != ""|
            && forall f :: multiset(r.value)[f] == |set k | k in props && Entry(x, k) == Some(f)|)
  {
    ListPropertiesFails(x, props, keys);
    if ListProperties(x, keys).Success? {
      ListPropertiesEntries(x, props, keys);
      ListPropertiesLength(x, props, keys);
      forall f ensures multiset(ListProperties(x, keys).value)[f] == |set k | k in props && Entry(x, k) == Some(f)| {
        ListPropertiesMultiplicity(x, props, keys, f);
      }
    }
  }

  /** The property keys that emit an entry are the keys that parse to a
      non-empty name. */
  lemma PropertyEmitters(x: Externals, props: map<string, Json>, keys: seq<string>)
    requires Enumerates(keys, props)
    ensures Emitters(keys, PropertySteps(x)) == set k | k in props && x.maybeParseAttr(k).Success? && x.maybeParseAttr(k).value.name != ""
  {
    var s2 := set k | k in props && x.maybeParseAttr(k).Success? && x.maybeParseAttr(k).value.name != "";
    forall k ensures k in Emitters(keys, PropertySteps(x)) <==> k in s2 {
      assert PropertySteps(x)(k) == PropertyStep(x, k);
    }
  }

  /** The property keys that emit `f` are the keys standing for `f`. */
  lemma PropertyEmittersOf(x: Externals, props: map<string, Json>, keys: seq<string>, f: FilterAttribute)
    requires Enumerates(keys, props)
    ensures EmittersOf(keys, PropertySteps(x), f) == set k | k in props && Entry(x, k) == Some(f)
  {
    var s2 := set k | k in props && Entry(x, k) == Some(f);
    forall k ensures k in EmittersOf(keys, PropertySteps(x), f) <==> k in s2 {
      assert PropertySteps(x)(k) == PropertyStep(x, k);
    }
  }

  /** A successful listing is the sorted walk. */
  lemma ListPropertiesIsSortedWalk(x: Externals, keys: seq<string>)
    requires ListProperties(x, keys).Success?
    ensures Collect(keys, PropertySteps(x)).Success?
    ensures multiset(ListProperties(x, keys).value) == multiset(Collect(keys, PropertySteps(x)).value)
  {
  }

  /** One entry per property key that parses to a non-empty name. */
  lemma ListPropertiesLength(x: Externals, props: map<string, Json>, keys: seq<string>)
    requires Enumerates(keys, props) && ListProperties(x, keys).Success?
    ensures |ListProperties(x, keys).value| == |set k | k in props && x.maybeParseAttr(k).Success? && x.maybeParseAttr(k).value.name != ""|
  {
    ListPropertiesIsSortedWalk(x, keys);
    var r, es := ListProperties(x, keys).value, Collect(keys, PropertySteps(x)).value;
    assert |r| == |multiset(r)| == |multiset(es)| == |es|;
    CollectLength(keys, PropertySteps(x));
    PropertyEmitters(x, props, keys);
  }

  /** Keys standing for the same entry give as many equal entries. */
  lemma ListPropertiesMultiplicity(x: Externals, props: map<string, Json>, keys: seq<string>, f: FilterAttribute)
    requires Enumerates(keys, props) && ListProperties(x, keys).Success?
    ensures multiset(ListProperties(x, keys).value)[f] == |set k | k in props && Entry(x, k) == Some(f)|
  {
    ListPropertiesIsSortedWalk(x, keys);
    CollectMultiplicity(keys, PropertySteps(x), f);
    PropertyEmittersOf(x, props, keys, f);
  }


  /** The listing fails iff some property name fails to parse. */
  lemma ListPropertiesFails(x: Externals, props: map<string, Json>, keys: seq<string>)
    requires Enumerates(keys, props)
    ensures ListProperties(x, keys).Success? <==> forall k :: k in props ==> x.maybeParseAttr(k).Success?
  {
    CollectFailure(keys, PropertySteps(x));
    if ListProperties(x, keys).Failure? {
      var i :| 0 <= i < |keys| && PropertySteps(x)(keys[i]).Failure?;
      assert keys[i] in props;
    }
  }

  /** Sorting keeps the length and the elements. */
  lemma SortAttrsKeeps(es: seq<FilterAttribute>)
    ensures |SortAttrs(es)| == |es|
    ensures forall f :: f in SortAttrs(es) <==> f in es
  {
    var r := SortAttrs(es);
    assert |r| == |multiset(r)| == |multiset(es)| == |es|;
    forall f ensures f in r <==> f in es {
      assert f in r <==> f in multiset(r);
      assert f in es <==> f in multiset(es);
    }
  }

  /** One property emits `f` exactly when its name parses to `f`'s scope
      and non-empty name, with a count of one. */
  lemma PropertyStepEmits(x: Externals, k: string, f: FilterAttribute)
    ensures PropertySteps(x)(k) == Success(Some(f)) <==>
      x.maybeParseAttr(k) == Success(AttrName(f.scope, f.name)) && f.name != "" && f.count == 1
  {
  }

  /** A successful listing holds one entry per named attribute. */
  lemma ListPropertiesEntries(x: Externals, props: map<string, Json>, keys: seq<string>)
    requires Enumerates(keys, props)
    requires ListProperties(x, keys).Success?
    ensures var r := ListProperties(x, keys).value;
      && |r| <= |props|
      && (forall i :: 0 <= i < |r| ==> r[i].count == 1)
      && forall f :: f in r <==>
           exists k :: k in props && x.maybeParseAttr(k) == Success(AttrName(f.scope, f.name)) && f.name != "" && f.count == 1
  {
    var es := Collect(keys, PropertySteps(x)).value;
    var r := ListProperties(x, keys).value;
    assert r == SortAttrs(es);
    SortAttrsKeeps(es);
    CollectItems(keys, PropertySteps(x));
    EntriesCountOne(x, keys);
    EnumerationLength(keys, props);
    forall i | 0 <= i < |r| ensures r[i].count == 1 {
      assert r[i] in es;
    }
    forall f ensures f in r <==>
      exists k :: k in props && x.maybeParseAttr(k) == Success(AttrName(f.scope, f.name)) && f.name != "" && f.count == 1
    {
      if f in r {
        var k :| k in keys && PropertySteps(x)(k) == Success(Some(f));
        PropertyStepEmits(x, k, f);
      }
      if exists k :: k in props && x.maybeParseAttr(k) == Success(AttrName(f.scope, f.name)) && f.name != "" && f.count == 1 {
        var k :| k in props && x.maybeParseAttr(k) == Success(AttrName(f.scope, f.name)) && f.name != "" && f.count == 1;
        PropertyStepEmits(x, k, f);
        assert k in keys;
      }
    }
  }



  /** The order in which the properties are visited does not decide whether
      the listing succeeds, nor the list: sorting erases it. */
  lemma ListPropertiesOrderIndependent(x: Externals, props: map<string, Json>, keys1: seq<string>, keys2: seq<string>)
    requires Enumerates(keys1, props) && Enumerates(keys2, props)
    ensures ListProperties(x, keys1).Success? <==> ListProperties(x, keys2).Success?
    ensures ListProperties(x, keys1).Success? ==> ListProperties(x, keys1) == ListProperties(x, keys2)
  {
    EnumerationsArePermutations(keys1, keys2, props);
    CollectPermutation(keys1, keys2, PropertySteps(x));
    if Collect(keys1, PropertySteps(x)).Success? {
      var e1, e2 := Collect(keys1, PropertySteps(x)).value, Collect(keys2, PropertySteps(x)).value;
      EntriesCountOne(x, keys1);
      var s1, s2 := SortAttrs(e1), SortAttrs(e2);
      assert multiset(s1) == multiset(e1) == multiset(e2) == multiset(s2);
      forall i | 0 <= i < |s1| ensures s1[i].count == 1 {
        assert s1[i] in multiset(e1);
      }
      SortedUnique(s1, s2);
      assert ListProperties(x, keys1) == Success(s1);
      assert ListProperties(x, keys2) == Success(s2);
    }
  }

  /** Once the index description and its properties are read, the listing
      fails iff some property key does not parse; otherwise it holds exactly
      one entry per property key that parses to a non-empty name: that raw
      name and scope with count 1, sorted, and nothing else. */
  lemma GetSearchableInvAttrsSpec(x: Externals, store: Store, tid: string, order: KeyOrder)
    requires ValidOrder(order)
    ensures store.getDevicesIndexMapping(tid).Success? && Properties(store.getDevicesIndexMapping(tid).value).Success? ==>
      var props := Properties(store.getDevicesIndexMapping(tid).value).value;
      var r := GetSearchableInvAttrs(x, store, tid, order);
      && (r.Success? <==> forall k :: k in props ==> x.maybeParseAttr(k).Success?)
      && (r.Success? ==>
            && Sorted(r.value)
            && (forall f :: f in r.value <==>
                 exists k :: k in props && x.maybeParseAttr(k) == Success(AttrName(f.scope, f.name)) && f.name != "" && f.count == 1)
            && |r.value| == |set k | k in props && x.maybeParseAttr(k).Success? && x.maybeParseAttr(k).value.name != ""|
            && forall f :: multiset(r.value)[f] == |set k | k in props && Entry(x, k) == Some(f)|)
  {
    if store.getDevicesIndexMapping(tid).Success? && Properties(store.getDevicesIndexMapping(tid).value).Success? {
      var props := Properties(store.getDevicesIndexMapping(tid).value).value;
      assert Enumerates(order(props), props);
      ListPropertiesSpec(x, props, order(props));
    }
  }

  /** Hence `GetSearchableInvAttrs` succeeds, and then gives the same list,
      whatever order Go visits the properties map in. (Which parse error is
      reported when several keys fail does depend on that order.) */
  lemma SearchableAttrsOrderIndependent(x: Externals, store: Store, tid: string, order1: KeyOrder, order2: KeyOrder)
    requires ValidOrder(order1) && ValidOrder(order2)
    ensures GetSearchableInvAttrs(x, store, tid, order1).Success? <==> GetSearchableInvAttrs(x, store, tid, order2).Success?
    ensures GetSearchableInvAttrs(x, store, tid, order1).Success? ==>
      GetSearchableInvAttrs(x, store, tid, order1) == GetSearchableInvAttrs(x, store, tid, order2)
  {
    if store.getDevicesIndexMapping(tid).Success? && Properties(store.getDevicesIndexMapping(tid).value).Success? {
      var props := Properties(store.getDevicesIndexMapping(tid).value).value;
      assert Enumerates(order1(props), props) && Enumerates(order2(props), props);
      ListPropertiesOrderIndependent(x, props, order1(props), order2(props));
    }
  }

  /** Any sorted arrangement of the collected entries (count 1 each) is the
      one `SortAttrs` produces: the outcome of Go's unstable `sort.Slice`
      with this comparator is fully determined. */
  lemma SortAttrsIsTheSortedArrangement(input: seq<FilterAttribute>, other: seq<FilterAttribute>)
    requires Sorted(other) && multiset(input) == multiset(other)
    requires forall i :: 0 <= i < |other| ==> other[i].count == 1
    ensures SortAttrs(input) == other
  {
    SortedUnique(other, SortAttrs(input));
  }

  /** Three entries, `c` before `a` before `b` in comparator order, come
      out as `[c, a, b]` whatever arrangement of them goes in. */
  lemma SortThree(a: FilterAttribute, b: FilterAttribute, c: FilterAttribute, xs: seq<FilterAttribute>)
    requires a.count == 1 && b.count == 1 && c.count == 1
    requires !Before(a, c) && !Before(b, c) && !Before(b, a)
    requires multiset(xs) == multiset{a, b, c}
    ensures SortAttrs(xs) == [c, a, b]
  {
    var expected := [c, a, b];
    assert !Before(expected[1], expected[0]);
    assert !Before(expected[2], expected[0]);
    assert !Before(expected[2], expected[1]);
    assert Sorted(expected);
    assert multiset(expected) == multiset{a, b, c};
    SortAttrsIsTheSortedArrangement(xs, expected);
  }

  /** Scope ascending, then name ascending: identity/mac, inventory/cpu,
      inventory/mem. */
  lemma SortExample()
    ensures SortAttrs([FilterAttribute("cpu", "inventory", 1), FilterAttribute("mem", "inventory", 1), FilterAttribute("mac", "identity", 1)])
         == [FilterAttribute("mac", "identity", 1), FilterAttribute("cpu", "inventory", 1), FilterAttribute("mem", "inventory", 1)]
  {
    ExampleOrder();
    var cpu, mem, mac := FilterAttribute("cpu", "inventory", 1), FilterAttribute("mem", "inventory", 1), FilterAttribute("mac", "identity", 1);
    assert multiset([cpu, mem, mac]) == multiset{cpu, mem, mac};
    SortThree(cpu, mem, mac, [cpu, mem, mac]);
  }

  lemma ExampleOrder()
    ensures !Before(FilterAttribute("cpu", "inventory", 1), FilterAttribute("mac", "identity", 1))
    ensures !Before(FilterAttribute("mem", "inventory", 1), FilterAttribute("mac", "identity", 1))
    ensures !Before(FilterAttribute("mem", "inventory", 1), FilterAttribute("cpu", "inventory", 1))
  {
    LessStep("dentity", "nventory");
    assert Less("identity", "inventory") by {
      assert "identity"[1..] == "dentity" && "inventory"[1..] == "nventory";
    }
    LessAsymmetric("identity", "inventory");
    LessStep("cpu", "mem");
    LessAsymmetric("cpu", "mem");
  }
}
