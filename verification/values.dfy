/** The untyped values Go's `encoding/json` produces (`interface{}` holding
    nil, bool, float64, string, `[]interface{}` or `map[string]interface{}`),
    and the few generic accessors the decoders use on them. */
module Values {

  /** A decoded JSON value. Numbers are integers here: the only number the
      core reads is a hit count. */
  datatype Json =
    | JNull
    | JBool(b: bool)
    | JNum(n: int)
    | JStr(s: string)
    | JArr(items: seq<Json>)
    | JObj(fields: map<string, Json>)

  /** Go's `m[k]` on a `map[string]interface{}`: a missing key reads as nil,
      which no type assertion accepts, exactly like a present JSON null. */
  function Member(m: map<string, Json>, k: string): Json {
    if k in m then m[k] else JNull
  }

  /** A value that is an array of exactly one element stands for that element
      (search hits read through `fields` wrap every value in an array). */
  function Unwrap(v: Json): Json {
    if v.JArr? && |v.items| == 1 then v.items[0] else v
  }

  predicate NoDuplicates<T(==)>(s: seq<T>) {
    forall i, j :: 0 <= i < j < |s| ==> s[i] != s[j]
  }

  /** `keys` is one order in which Go's `for k := range m` may visit `m`:
      every key exactly once. Go leaves that order unspecified. */
  predicate Enumerates(keys: seq<string>, m: map<string, Json>) {
    && NoDuplicates(keys)
    && (forall k :: k in keys ==> k in m)
    && (forall k :: k in m ==> k in keys)
  }

  /** A choice of iteration order for every map the code ranges over. */
  type KeyOrder = map<string, Json> -> seq<string>

  ghost predicate ValidOrder(order: KeyOrder) {
    forall m :: Enumerates(order(m), m)
  }

  lemma NoDuplicatesTail<T>(s: seq<T>)
    requires NoDuplicates(s) && s != []
    ensures NoDuplicates(s[1..])
    ensures s[0] !in s[1..]
  {
    forall i, j | 0 <= i < j < |s[1..]|
      ensures s[1..][i] != s[1..][j]
    {
      assert s[1..][i] == s[i + 1] && s[1..][j] == s[j + 1];
    }
    forall j | 0 <= j < |s[1..]|
      ensures s[1..][j] != s[0]
    {
      assert s[1..][j] == s[j + 1];
    }
  }

  /** A sequence without duplicates holds each of its elements once. */
  lemma {:induction false} NoDuplicatesMultiplicity<T>(s: seq<T>, x: T)
    requires NoDuplicates(s)
    ensures multiset(s)[x] == if x in s then 1 else 0
  {
    if s != [] {
      assert s == [s[0]] + s[1..];
      assert NoDuplicates(s[1..]) by {
        forall i, j | 0 <= i < j < |s[1..]|
          ensures s[1..][i] != s[1..][j]
        {
          assert s[1..][i] == s[i + 1] && s[1..][j] == s[j + 1];
        }
      }
      NoDuplicatesMultiplicity(s[1..], x);
      if x == s[0] {
        forall j | 0 <= j < |s[1..]|
          ensures s[1..][j] != x
        {
          assert s[1..][j] == s[j + 1];
        }
      }
    }
  }

  /** Two iteration orders of one map visit the same keys: they are
      permutations of each other. */
  lemma EnumerationsArePermutations(a: seq<string>, b: seq<string>, m: map<string, Json>)
    requires Enumerates(a, m) && Enumerates(b, m)
    ensures multiset(a) == multiset(b)
  {
    forall x
      ensures multiset(a)[x] == multiset(b)[x]
    {
      NoDuplicatesMultiplicity(a, x);
      NoDuplicatesMultiplicity(b, x);
    }
  }

  /** An iteration order has exactly as many steps as the map has keys. */
  lemma {:induction false} EnumerationLength(keys: seq<string>, m: map<string, Json>)
    requires Enumerates(keys, m)
    ensures |keys| == |m|
  {
    var ks := set k | k in keys;
    assert ks == m.Keys;
    DistinctCardinality(keys);
  }

  lemma {:induction false} DistinctCardinality(s: seq<string>)
    requires NoDuplicates(s)
    ensures |set k | k in s| == |s|
  {
    if s != [] {
      var t := s[1..];
      assert NoDuplicates(t) by {
        forall i, j | 0 <= i < j < |t|
          ensures t[i] != t[j]
        {
          assert t[i] == s[i + 1] && t[j] == s[j + 1];
        }
      }
      DistinctCardinality(t);
      forall j | 0 <= j < |t|
        ensures t[j] != s[0]
      {
        assert t[j] == s[j + 1];
      }
      assert (set k | k in s) == (set k | k in t) + {s[0]};
    }
  }
}
