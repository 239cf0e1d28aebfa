/** What each kind of property promises for `getValue` and `setValue`. */
module PropertyFacts {
  import opened Outcomes
  import opened AssocLists
  import opened Entities

  // ------------------------------------------------------------- Property

  /** A direct property reads its one key from the entity's store, failures
      included, and writes the singleton change set {key: value}. */
  lemma DirectProperty(env: Callables, key: string, e: Entity, v: Value)
    ensures GetValue(env, Direct(key), e) == StoreGet(env, e.store, key)
    ensures SetValue(env, Direct(key), e, v).Ok?
    ensures var c := SetValue(env, Direct(key), e, v).value;
      Keys(c) == {key} && Find(c, key) == Some(v)
  {
    KeysCons((key, v), []);
    assert [(key, v)] + [] == [(key, v)];
  }

  // --------------------------------------------------- DefaultingProperty

  /** The first `n` keys of the chain all fail out of bounds. */
  predicate AllOutOfBounds(env: Callables, s: Store, keys: seq<string>, n: int)
    requires 0 <= n <= |keys|
  {
    forall j | 0 <= j < n :: StoreGet(env, s, keys[j]).Fail? && OutOfBounds(StoreGet(env, s, keys[j]).failure)
  }

  /** The fallback walk reads the keys in order: it returns the result of the
      first key whose read does not fail out of bounds (its value, or its other
      failure), and fails with `Missing` when every key is out of bounds. */
  lemma {:induction false} DefaultingFallback(env: Callables, s: Store, keys: seq<string>)
    ensures
      || (AllOutOfBounds(env, s, keys, |keys|) && FirstFound(env, s, keys) == Fail(Missing))
      || (exists i | 0 <= i < |keys| ::
            && AllOutOfBounds(env, s, keys, i)
            && !(StoreGet(env, s, keys[i]).Fail? && OutOfBounds(StoreGet(env, s, keys[i]).failure))
            && FirstFound(env, s, keys) == StoreGet(env, s, keys[i]))
    decreases |keys|
  {
    if keys != [] {
      var got := StoreGet(env, s, keys[0]);
      if got.Fail? && OutOfBounds(got.failure) {
        var rest := keys[1..];
        DefaultingFallback(env, s, rest);
        assert forall j | 0 <= j < |rest| :: rest[j] == keys[j + 1];
        if AllOutOfBounds(env, s, rest, |rest|) {
          assert AllOutOfBounds(env, s, keys, |keys|);
        } else {
          var i :| 0 <= i < |rest| && AllOutOfBounds(env, s, rest, i)
            && !(StoreGet(env, s, rest[i]).Fail? && OutOfBounds(StoreGet(env, s, rest[i]).failure))
            && FirstFound(env, s, rest) == StoreGet(env, s, rest[i]);
          assert AllOutOfBounds(env, s, keys, i + 1);
        }
      } else {
        assert AllOutOfBounds(env, s, keys, 0);
      }
    }
  }

  /** The test `testGetValueDefault`: with k1 and k2 missing and k3 present,
      the chain [k1, k2, k3] reads k3's value. */
  lemma DefaultingReadsThirdKey(env: Callables, schema: Schema, v: Value)
    ensures GetValue(env, Defaulting(["k1", "k2", "k3"]), Entity(schema, ArrayStore([("k3", v)]))) == Ok(v)
  {
    var s := ArrayStore([("k3", v)]);
    assert StoreGet(env, s, "k1") == Fail(Missing);
    assert StoreGet(env, s, "k2") == Fail(Missing);
    assert StoreGet(env, s, "k3") == Ok(v);
    assert ["k1", "k2", "k3"][1..] == ["k2", "k3"];
    assert ["k2", "k3"][1..] == ["k3"];
    assert FirstFound(env, s, ["k3"]) == Ok(v);
    assert FirstFound(env, s, ["k2", "k3"]) == Ok(v);
    assert FirstFound(env, s, ["k1", "k2", "k3"]) == Ok(v);
  }

  /** An empty chain is a valid property that reads as missing. */
  lemma DefaultingEmptyChain(env: Callables, e: Entity)
    ensures GetValue(env, Defaulting([]), e) == Fail(Missing)
  {
  }

  /** Writes go to the first key only: the change set is {first key: value},
      and no fallback key is written. */
  lemma DefaultingWritesFirstKey(env: Callables, keys: seq<string>, e: Entity, v: Value)
    requires keys != []
    ensures SetValue(env, Defaulting(keys), e, v).Ok?
    ensures SetValue(env, Defaulting(keys), e, v) == Ok([(keys[0], v)])
    ensures var c := SetValue(env, Defaulting(keys), e, v).value;
      && Keys(c) == {keys[0]}
      && Find(c, keys[0]) == Some(v)
      && forall j | 0 < j < |keys| && keys[j] != keys[0] :: keys[j] !in Keys(c)
  {
    KeysCons((keys[0], v), []);
    assert [(keys[0], v)] + [] == [(keys[0], v)];
  }

  // ------------------------------------------------------- StaticProperty

  /** A static property reads its fixed value whatever the entity (the store is
      never consulted) and discards every write. */
  lemma StaticProperty(env: Callables, fixed: Value, e1: Entity, e2: Entity, v1: Value, v2: Value)
    ensures GetValue(env, Static(fixed), e1) == GetValue(env, Static(fixed), e2) == Ok(fixed)
    ensures SetValue(env, Static(fixed), e1, v1) == SetValue(env, Static(fixed), e2, v2) == Ok([])
  {
  }

  // ----------------------------------------------------- CallbackProperty

  /** With no getter the read is `null`; with one, it is the getter applied to
      the entity itself, its failures included. */
  lemma CallbackGetValue(env: Callables, getter: Option<CallableId>, setter: Option<CallableId>, e: Entity)
    ensures getter.None? ==> GetValue(env, Callback(getter, setter), e) == Ok(Null)
    ensures getter.Some? ==> GetValue(env, Callback(getter, setter), e) == env.read(getter.value, e)
  {
  }

  /** With no setter the write is the empty change set whatever the value; with
      one, it is the setter's commit for (entity, value), as returned. */
  lemma CallbackSetValue(env: Callables, getter: Option<CallableId>, setter: Option<CallableId>, e: Entity, v: Value)
    ensures setter.None? ==> SetValue(env, Callback(getter, setter), e, v) == Ok([])
    ensures setter.Some? ==> SetValue(env, Callback(getter, setter), e, v) == env.write(setter.value, e, v)
  {
  }

  // ----------------------------------------------- decorator properties

  /** The decorated read: the inner property reads the entity, and the getter
      hook maps (entity, inner value) to the result; an inner failure reaches the
      caller unchanged and the hook is not run. */
  lemma DecoratorGetValue(env: Callables, inner: Property, getter: Option<CallableId>, setter: Option<CallableId>, e: Entity)
    ensures GetValue(env, inner, e).Fail? ==>
      GetValue(env, Decorator(inner, getter, setter), e) == GetValue(env, inner, e)
    ensures GetValue(env, inner, e).Ok? ==>
      GetValue(env, Decorator(inner, getter, setter), e) == GetterHook(env, getter, e, GetValue(env, inner, e).value)
  {
  }

  /** The decorated write: the setter hook runs first on (entity, value), and the
      inner property writes its output; the change set is exactly the inner
      property's. A failing hook fails the write and the inner property is not
      asked. */
  lemma DecoratorSetValue(env: Callables, inner: Property, getter: Option<CallableId>, setter: Option<CallableId>, e: Entity, v: Value)
    requires Writable(inner)
    ensures SetterHook(env, setter, e, v).Fail? ==>
      SetValue(env, Decorator(inner, getter, setter), e, v) == Fail(SetterHook(env, setter, e, v).failure)
    ensures SetterHook(env, setter, e, v).Ok? ==>
      SetValue(env, Decorator(inner, getter, setter), e, v) == SetValue(env, inner, e, SetterHook(env, setter, e, v).value)
  {
  }

  /** The hooks of `CallbackDecoratorProperty`: the callback when one is given,
      the identity otherwise. */
  lemma CallbackHooks(env: Callables, cb: Option<CallableId>, e: Entity, v: Value)
    ensures cb.None? ==> GetterHook(env, cb, e, v) == Ok(v) && SetterHook(env, cb, e, v) == Ok(v)
    ensures cb.Some? ==>
      GetterHook(env, cb, e, v) == env.decorateGet(cb.value, e, v) &&
      SetterHook(env, cb, e, v) == env.decorateSet(cb.value, e, v)
  {
  }

  /** A decorator with neither callback cannot be told apart from the property
      it decorates, for reads and for writes. */
  lemma DecoratorWithoutCallbacks(env: Callables, inner: Property, e: Entity, v: Value)
    requires Writable(inner)
    ensures GetValue(env, Decorator(inner, None, None), e) == GetValue(env, inner, e)
    ensures SetValue(env, Decorator(inner, None, None), e, v) == SetValue(env, inner, e, v)
  {
  }

  /** The innermost property under a tower of decorators without callbacks. */
  function Undecorated(p: Property): (r: Property)
    ensures !(r.Decorator? && r.getter.None? && r.setter.None?)
  {
    if p.Decorator? && p.getter.None? && p.setter.None? then Undecorated(p.inner) else p
  }

  /** Any tower of decorators without callbacks reads and writes exactly as the
      property at its bottom. */
  lemma {:induction false} TransparentTower(env: Callables, p: Property, e: Entity, v: Value)
    requires Writable(p)
    ensures Writable(Undecorated(p))
    ensures GetValue(env, p, e) == GetValue(env, Undecorated(p), e)
    ensures SetValue(env, p, e, v) == SetValue(env, Undecorated(p), e, v)
  {
    if p.Decorator? && p.getter.None? && p.setter.None? {
      TransparentTower(env, p.inner, e, v);
    }
  }
}
