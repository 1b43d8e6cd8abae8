/** The loop shared by the hit decoder and the schema listing: visit the
    keys of a map, parse each one as an attribute name, return the parse
    error at once if there is one, skip a key whose name is empty, and
    otherwise append one item. A `step` says what one key does: fail, skip,
    or emit one item. */
module KeyWalk {
  import opened Wrappers
  import opened Values
  import opened Types

  function Emitted<T>(o: Option<T>): seq<T> {
    if o.Some? then [o.value] else []
  }

  /** Visit `keys` in order, stop at the first failing key, otherwise return
      the emitted items in visiting order. */
  function Collect<T>(keys: seq<string>, step: string -> Result<Option<T>, Error>): Result<seq<T>, Error>
  {
    if keys == [] then Success([])
    else
      match step(keys[0])
      case Failure(e) => Failure(e)
      case Success(o) =>
        match Collect(keys[1..], step)
        case Failure(e) => Failure(e)
        case Success(rest) => Success(Emitted(o) + rest)
  }

  /** The walk fails iff some key fails, and then with the error of the
      first failing key in visiting order. */
  lemma {:induction false} CollectFailure<T>(keys: seq<string>, step: string -> Result<Option<T>, Error>)
    ensures Collect(keys, step).Success? <==> forall i :: 0 <= i < |keys| ==> step(keys[i]).Success?
    ensures forall i ::
      && 0 <= i < |keys| && step(keys[i]).Failure?
      && (forall j :: 0 <= j < i ==> step(keys[j]).Success?)
      ==> Collect(keys, step) == Failure(step(keys[i]).error)
  {
    if keys != [] {
      CollectFailure(keys[1..], step);
      assert forall i :: 1 <= i < |keys| ==> keys[1..][i - 1] == keys[i];
    }
  }

  /** An item is emitted iff some visited key emits it, and never more items
      than keys. */
  lemma {:induction false} CollectItems<T>(keys: seq<string>, step: string -> Result<Option<T>, Error>)
    requires Collect(keys, step).Success?
    ensures |Collect(keys, step).value| <= |keys|
    ensures forall x :: x in Collect(keys, step).value <==> exists k :: k in keys && step(k) == Success(Some(x))
  {
    if keys != [] {
      CollectItems(keys[1..], step);
      assert keys == [keys[0]] + keys[1..];
    }
  }

  /** The keys of `keys` that emit `item`. */
  ghost function EmittersOf<T>(keys: seq<string>, step: string -> Result<Option<T>, Error>, item: T): set<string> {
    set k | k in keys && step(k) == Success(Some(item))
  }

  /** The keys of `keys` that emit an item. */
  ghost function Emitters<T>(keys: seq<string>, step: string -> Result<Option<T>, Error>): set<string> {
    set k | k in keys && step(k).Success? && step(k).value.Some?
  }

  lemma EmittersOfSplit<T>(keys: seq<string>, step: string -> Result<Option<T>, Error>, item: T)
    requires keys != [] && keys[0] !in keys[1..]
    ensures |EmittersOf(keys, step, item)| == (if step(keys[0]) == Success(Some(item)) then 1 else 0) + |EmittersOf(keys[1..], step, item)|
  {
    var st := EmittersOf(keys[1..], step, item);
    assert keys == [keys[0]] + keys[1..];
    if step(keys[0]) == Success(Some(item)) {
      assert EmittersOf(keys, step, item) == {keys[0]} + st;
    } else {
      assert EmittersOf(keys, step, item) == st;
    }
  }

  lemma EmittersSplit<T>(keys: seq<string>, step: string -> Result<Option<T>, Error>)
    requires keys != [] && keys[0] !in keys[1..]
    ensures |Emitters(keys, step)| == (if step(keys[0]).Success? && step(keys[0]).value.Some? then 1 else 0) + |Emitters(keys[1..], step)|
  {
    var st := Emitters(keys[1..], step);
    assert keys == [keys[0]] + keys[1..];
    if step(keys[0]).Success? && step(keys[0]).value.Some? {
      assert Emitters(keys, step) == {keys[0]} + st;
    } else {
      assert Emitters(keys, step) == st;
    }
  }

  /** Over distinct keys, each item is emitted as many times as there are
      keys that emit it: one entry per key, none merged. */
  lemma {:induction false} CollectMultiplicity<T>(keys: seq<string>, step: string -> Result<Option<T>, Error>, item: T)
    requires NoDuplicates(keys) && Collect(keys, step).Success?
    ensures multiset(Collect(keys, step).value)[item] == |EmittersOf(keys, step, item)|
  {
    if keys != [] {
      NoDuplicatesTail(keys);
      CollectMultiplicity(keys[1..], step, item);
      EmittersOfSplit(keys, step, item);
      var e := Emitted(step(keys[0]).value);
      assert Collect(keys, step).value == e + Collect(keys[1..], step).value;
      assert multiset(e)[item] == if step(keys[0]) == Success(Some(item)) then 1 else 0;
    }
  }

  /** Over distinct keys, there are exactly as many items as keys that emit
      one. */
  lemma {:induction false} CollectLength<T>(keys: seq<string>, step: string -> Result<Option<T>, Error>)
    requires NoDuplicates(keys) && Collect(keys, step).Success?
    ensures |Collect(keys, step).value| == |Emitters(keys, step)|
  {
    if keys != [] {
      NoDuplicatesTail(keys);
      CollectLength(keys[1..], step);
      EmittersSplit(keys, step);
    }
  }

  /** Walking `a + b` is walking `a`, then `b`: every key contributes on its
      own, in visiting order. */
  lemma {:induction false} CollectAppend<T>(a: seq<string>, b: seq<string>, step: string -> Result<Option<T>, Error>)
    ensures Collect(a + b, step).Success? <==> Collect(a, step).Success? && Collect(b, step).Success?
    ensures Collect(a + b, step).Success? ==>
      Collect(a + b, step).value == Collect(a, step).value + Collect(b, step).value
  {
    if a == [] {
      assert a + b == b;
    } else {
      assert (a + b)[1..] == a[1..] + b;
      CollectAppend(a[1..], b, step);
    }
  }

  /** One key on its own. */
  lemma CollectSingle<T>(k: string, step: string -> Result<Option<T>, Error>)
    ensures step(k).Failure? ==> Collect([k], step) == Failure(step(k).error)
    ensures step(k).Success? ==> Collect([k], step) == Success(Emitted(step(k).value))
  {
    assert [k][1..] == [];
    if step(k).Success? {
      assert Emitted(step(k).value) + [] == Emitted(step(k).value);
    }
  }

  /** Whether the walk succeeds depends only on which keys are visited. */
  lemma CollectSameKeys<T>(a: seq<string>, b: seq<string>, step: string -> Result<Option<T>, Error>)
    requires forall k :: k in a <==> k in b
    ensures Collect(a, step).Success? <==> Collect(b, step).Success?
  {
    CollectFailure(a, step);
    CollectFailure(b, step);
    if Collect(a, step).Success? {
      forall i | 0 <= i < |b| ensures step(b[i]).Success? {
        assert b[i] in a;
      }
    }
    if Collect(b, step).Success? {
      forall i | 0 <= i < |a| ensures step(a[i]).Success? {
        assert a[i] in b;
      }
    }
  }

  /** Keys permuted are the same keys. */
  lemma PermutedKeys(a: seq<string>, b: seq<string>)
    requires multiset(a) == multiset(b)
    ensures forall k :: k in a <==> k in b
  {
    forall k ensures k in a <==> k in b {
      assert k in a <==> k in multiset(a);
      assert k in b <==> k in multiset(b);
    }
  }

  /** The first key of `a` sits somewhere in its permutation `b`, and the
      rest of `a` is a permutation of `b` without it. */
  lemma PermutedHead(a: seq<string>, b: seq<string>) returns (j: int)
    requires a != [] && multiset(a) == multiset(b)
    ensures 0 <= j < |b| && b[j] == a[0]
    ensures multiset(a[1..]) == multiset(b[..j] + b[j + 1..])
  {
    var x := a[0];
    assert x in multiset(b);
    j :| 0 <= j < |b| && b[j] == x;
    var b1, b2 := b[..j], b[j + 1..];
    assert b == b1 + [x] + b2;
    assert a == [x] + a[1..];
    assert multiset(a) == multiset{x} + multiset(a[1..]);
    assert multiset(b) == multiset(b1) + multiset{x} + multiset(b2);
    assert multiset(b1 + b2) == multiset(b1) + multiset(b2);
    assert multiset(a[1..]) == multiset(a) - multiset{x};
    assert multiset(b1 + b2) == multiset(b) - multiset{x};
  }

  /** The visiting order does not matter for whether the walk succeeds, nor
      for which items (with multiplicity) it emits. */
  lemma {:induction false} CollectPermutation<T>(a: seq<string>, b: seq<string>, step: string -> Result<Option<T>, Error>)
    requires multiset(a) == multiset(b)
    ensures Collect(a, step).Success? <==> Collect(b, step).Success?
    ensures Collect(a, step).Success? ==> multiset(Collect(a, step).value) == multiset(Collect(b, step).value)
    decreases |a|
  {
    PermutedKeys(a, b);
    CollectSameKeys(a, b, step);
    if a != [] && Collect(a, step).Success? {
      var j := PermutedHead(a, b);
      var b1, b2 := b[..j], b[j + 1..];
      assert b == b1 + [a[0]] + b2;
      PermutationStep(a, b1, a[0], b2, step);
    }
  }

  lemma {:induction false} PermutationStep<T>(a: seq<string>, b1: seq<string>, x: string, b2: seq<string>, step: string -> Result<Option<T>, Error>)
    requires a != [] && a[0] == x
    requires multiset(a[1..]) == multiset(b1 + b2)
    requires Collect(a, step).Success? && Collect(b1 + [x] + b2, step).Success?
    ensures multiset(Collect(a, step).value) == multiset(Collect(b1 + [x] + b2, step).value)
    decreases |a|, 0
  {
    var b := b1 + [x] + b2;
    CollectAppend(b1 + [x], b2, step);
    CollectAppend(b1, [x], step);
    CollectAppend([x], a[1..], step);
    assert a == [x] + a[1..];
    CollectSingle(x, step);
    CollectAppend(b1, b2, step);
    CollectPermutation(a[1..], b1 + b2, step);
    var e := Emitted(step(x).value);
    assert Collect(a, step).value == e + Collect(a[1..], step).value;
    assert Collect(b, step).value == Collect(b1, step).value + e + Collect(b2, step).value;
    assert Collect(b1 + b2, step).value == Collect(b1, step).value + Collect(b2, step).value;
  }

  /** Walks with pointwise-equal steps agree. */
  lemma {:induction false} CollectCongruence<T>(keys: seq<string>, s1: string -> Result<Option<T>, Error>, s2: string -> Result<Option<T>, Error>)
    requires forall k :: k in keys ==> s1(k) == s2(k)
    ensures Collect(keys, s1) == Collect(keys, s2)
  {
    if keys != [] {
      CollectCongruence(keys[1..], s1, s2);
    }
  }
}
