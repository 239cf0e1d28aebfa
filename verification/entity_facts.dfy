/** What `Entity::get`, `Entity::set` and `Entity::export` promise. */
module EntityFacts {
  import opened Outcomes
  import opened AssocLists
  import opened Entities

  /** Attribute `name` is registered at position `i` of the schema, with property `p`. */
  predicate RegisteredAt(e: Entity, i: int, name: string, p: Property) {
    0 <= i < |e.schema.properties| && e.schema.properties[i] == (name, p)
  }

  // ---------------------------------------------------------------- get

  /** A registered property that reads a value yields that value: the property
      is asked with the entity itself as its argument. */
  lemma GetReturnsPropertyValue(env: Callables, e: Entity, i: int, name: string, p: Property, v: Value)
    requires RegisteredAt(e, i, name, p)
    requires GetValue(env, p, e) == Ok(v)
    ensures Get(env, e, name) == Ok(v)
  {
  }

  /** A name that is not registered is an unknown attribute. */
  lemma GetUnregistered(env: Callables, e: Entity, name: string)
    requires name !in Keys(e.schema.properties)
    ensures Get(env, e, name) == Fail(Unknown)
  {
  }

  /** An out-of-bounds failure of the property is replaced by the schema's
      default for the name. */
  lemma GetFallsBackToDefault(env: Callables, e: Entity, i: int, name: string, p: Property, j: int, d: Value)
    requires RegisteredAt(e, i, name, p)
    requires GetValue(env, p, e).Fail? && OutOfBounds(GetValue(env, p, e).failure)
    requires 0 <= j < |e.schema.defaults| && e.schema.defaults[j] == (name, d)
    ensures Get(env, e, name) == Ok(d)
  {
  }

  /** Any other failure, and an out-of-bounds failure with no default, reaches
      the caller unchanged. */
  lemma GetPropagatesFailure(env: Callables, e: Entity, i: int, name: string, p: Property, f: Failure)
    requires RegisteredAt(e, i, name, p)
    requires GetValue(env, p, e) == Fail(f)
    requires !OutOfBounds(f) || name !in Keys(e.schema.defaults)
    ensures Get(env, e, name) == Fail(f)
  {
  }

  // ---------------------------------------------------------------- set

  /** Once a prefix of the batch has failed, the whole batch fails the same way:
      nothing after the failing entry is resolved. */
  lemma {:induction false} CollectKeepsFailure(env: Callables, e: Entity, pairs: seq<(string, Value)>, n: nat)
    requires WellFormed(e)
    requires n <= |pairs|
    requires Collect(env, e, pairs[..n]).Fail?
    ensures Collect(env, e, pairs) == Collect(env, e, pairs[..n])
    decreases |pairs|
  {
    if n < |pairs| {
      var front := pairs[..|pairs| - 1];
      assert front[..n] == pairs[..n];
      CollectKeepsFailure(env, e, front, n);
    } else {
      assert pairs[..n] == pairs;
    }
  }

  /** The value written to store key `k` by the last entry of `pairs` whose
      change set contains `k`, if any: the reference reading of "later writes
      win" one key at a time, scanning the batch backwards. */
  function LastWrite(env: Callables, e: Entity, pairs: seq<(string, Value)>, k: string): Option<Value>
    requires WellFormed(e)
    decreases |pairs|
  {
    if pairs == [] then None
    else
      var front := pairs[..|pairs| - 1];
      var (name, v) := pairs[|pairs| - 1];
      match Find(e.schema.properties, name)
      case None => LastWrite(env, e, front, k)
      case Some(p) =>
        assert Writable(p);
        var written := SetValue(env, p, e, v);
        if written.Ok? && k in Keys(written.value) then Find(written.value, k)
        else LastWrite(env, e, front, k)
  }

  /** The merged change set of a batch holds, for every store key, the value of
      the last write to it, and no key nobody wrote (`array_merge` in input
      order). */
  lemma {:induction false} CollectLastWriteWins(env: Callables, e: Entity, pairs: seq<(string, Value)>, k: string)
    requires WellFormed(e)
    requires Collect(env, e, pairs).Ok?
    ensures Find(Collect(env, e, pairs).value, k) == LastWrite(env, e, pairs, k)
    decreases |pairs|
  {
    if pairs != [] {
      CollectLastWriteWins(env, e, pairs[..|pairs| - 1], k);
    }
  }

  /** An entry whose property write fails out of bounds contributes nothing:
      the batch merges exactly what it merges without that entry, so the
      entries after it are still processed. */
  lemma {:induction false} CollectSkipsOutOfBounds(env: Callables, e: Entity, pairs: seq<(string, Value)>, i: nat, p: Property)
    requires WellFormed(e)
    requires i < |pairs|
    requires Find(e.schema.properties, pairs[i].0) == Some(p)
    requires Writable(p)
    requires SetValue(env, p, e, pairs[i].1).Fail? && OutOfBounds(SetValue(env, p, e, pairs[i].1).failure)
    ensures Collect(env, e, pairs) == Collect(env, e, pairs[..i] + pairs[i + 1..])
    decreases |pairs|
  {
    var n := |pairs| - 1;
    var front := pairs[..n];
    if i == n {
      assert pairs[..i] + pairs[i + 1..] == front;
      assert Collect(env, e, pairs) == Step(env, e, Collect(env, e, front), pairs[n]);
    } else {
      var without := pairs[..i] + pairs[i + 1..];
      assert front[i] == pairs[i];
      CollectSkipsOutOfBounds(env, e, front, i, p);
      assert without[..|without| - 1] == front[..i] + front[i + 1..];
      assert without[|without| - 1] == pairs[n];
      assert Collect(env, e, without) == Step(env, e, Collect(env, e, front[..i] + front[i + 1..]), pairs[n]);
    }
  }

  /** An unregistered name aborts the batch with `Unknown` before the store is
      written, unless an earlier entry already failed. */
  lemma SetUnregisteredName(env: Callables, e: Entity, pairs: Assoc<Value>, i: nat)
    requires WellFormed(e)
    requires i < |pairs| && pairs[i].0 !in Keys(e.schema.properties)
    requires Collect(env, e, pairs[..i]).Ok?
    ensures Collect(env, e, pairs[..i + 1]) == Fail(Unknown)
    ensures Set(env, e, pairs) == Fail(Unknown)
  {
    assert pairs[..i + 1][..i] == pairs[..i];
    CollectKeepsFailure(env, e, pairs, i + 1);
  }

  /** A batch that succeeds makes exactly one store write, with the merged change
      set, and yields an entity with the same schema around the store that write
      returned; a batch whose store write fails fails with it. */
  lemma SetCommitsOnce(env: Callables, e: Entity, pairs: Assoc<Value>)
    requires WellFormed(e)
    ensures Set(env, e, pairs).Ok? <==>
      Collect(env, e, pairs).Ok? && StoreSet(env, e.store, Collect(env, e, pairs).value).Ok?
    ensures Set(env, e, pairs).Ok? ==>
      Set(env, e, pairs).value.schema == e.schema &&
      Set(env, e, pairs).value.store == StoreSet(env, e.store, Collect(env, e, pairs).value).value
  {
  }

  /** A batch of one entry merges exactly that entry's change set. */
  lemma CollectSingle(env: Callables, e: Entity, name: string, v: Value, p: Property)
    requires WellFormed(e)
    requires Find(e.schema.properties, name) == Some(p) && Writable(p)
    requires SetValue(env, p, e, v).Ok?
    ensures Collect(env, e, [(name, v)]) == Ok(SetValue(env, p, e, v).value)
  {
    assert [(name, v)][..0] == [];
    var c := SetValue(env, p, e, v).value;
    MergeDisjoint([], c);
    assert [] + c == c;
  }

  /** An entity over an array store commits its batch with `array_merge`. */
  lemma SetIntoArrayStore(env: Callables, e: Entity, pairs: Assoc<Value>)
    requires WellFormed(e) && e.store.ArrayStore?
    requires Collect(env, e, pairs).Ok?
    ensures Set(env, e, pairs) ==
      Ok(Entity(e.schema, ArrayStore(Merge(e.store.data, Collect(env, e, pairs).value))))
  {
  }

  /** Writing one attribute backed by a direct property into an array store and
      reading it back yields the value written. */
  lemma DirectWriteThenRead(env: Callables, e: Entity, i: int, name: string, k: string, v: Value)
    requires WellFormed(e) && e.store.ArrayStore?
    requires RegisteredAt(e, i, name, Direct(k))
    ensures Set(env, e, [(name, v)]).Ok?
    ensures Get(env, Set(env, e, [(name, v)]).value, name) == Ok(v)
  {
    var pairs: Assoc<Value> := [(name, v)];
    CollectSingle(env, e, name, v, Direct(k));
    SetIntoArrayStore(env, e, pairs);
    var data := Merge(e.store.data, [(k, v)]);
    var e' := Entity(e.schema, ArrayStore(data));
    assert Find(data, k) == Some(v);
    assert StoreGet(env, e'.store, k) == Ok(v);
    assert GetValue(env, Direct(k), e') == Ok(v);
  }

  /** The same round trip through a fallback chain: the write goes to the first
      key, which the read then finds first. */
  lemma DefaultingWriteThenRead(env: Callables, e: Entity, i: int, name: string, keys: seq<string>, v: Value)
    requires WellFormed(e) && e.store.ArrayStore?
    requires RegisteredAt(e, i, name, Defaulting(keys))
    ensures Set(env, e, [(name, v)]).Ok?
    ensures Get(env, Set(env, e, [(name, v)]).value, name) == Ok(v)
  {
    assert Writable(Defaulting(keys));
    var pairs: Assoc<Value> := [(name, v)];
    CollectSingle(env, e, name, v, Defaulting(keys));
    SetIntoArrayStore(env, e, pairs);
    var data := Merge(e.store.data, [(keys[0], v)]);
    var e' := Entity(e.schema, ArrayStore(data));
    assert Find(data, keys[0]) == Some(v);
    assert StoreGet(env, e'.store, keys[0]) == Ok(v);
    assert FirstFound(env, e'.store, keys) == Ok(v);
    assert GetValue(env, Defaulting(keys), e') == Ok(v);
  }

  // ------------------------------------------------------------- export

  /** A successful export lists every registered attribute once, in schema order,
      with the value `Get` reads for it (defaults included). */
  lemma ExportReadsEveryAttribute(env: Callables, e: Entity)
    ensures Export(env, e).Ok? <==>
      forall i | 0 <= i < |e.schema.properties| :: Get(env, e, e.schema.properties[i].0).Ok?
    ensures Export(env, e).Ok? ==>
      var m := Export(env, e).value;
      |m| == |e.schema.properties| && Keys(m) == Keys(e.schema.properties) &&
      forall i | 0 <= i < |m| ::
        m[i].0 == e.schema.properties[i].0 && Get(env, e, m[i].0) == Ok(m[i].1)
  {
    var props := e.schema.properties;
    var r := ExportAll(env, e, props);
    if r.Ok? {
      var m := r.value;
      assert forall i | 0 <= i < |m| :: m[i].0 == props[i].0;
      assert Keys(m) == Keys(props) by {
        forall k | k in Keys(props) ensures k in Keys(m) {
          var i :| 0 <= i < |props| && props[i].0 == k;
          assert m[i].0 == k;
        }
      }
    }
  }

  /** An export fails with the failure of the first attribute, in schema order,
      whose read fails. */
  lemma {:induction false} ExportFailsAtFirstFailure(env: Callables, e: Entity, props: seq<(string, Property)>)
    requires ExportAll(env, e, props).Fail?
    ensures exists i | 0 <= i < |props| ::
      Get(env, e, props[i].0) == Fail(ExportAll(env, e, props).failure) &&
      forall j | 0 <= j < i :: Get(env, e, props[j].0).Ok?
    decreases |props|
  {
    var n := |props| - 1;
    var front := props[..n];
    if ExportAll(env, e, front).Fail? {
      ExportFailsAtFirstFailure(env, e, front);
      var i :| 0 <= i < |front| &&
        Get(env, e, front[i].0) == Fail(ExportAll(env, e, front).failure) &&
        forall j | 0 <= j < i :: Get(env, e, front[j].0).Ok?;
      assert props[i] == front[i];
      assert forall j | 0 <= j < i :: props[j] == front[j];
    } else {
      assert forall j | 0 <= j < n :: props[j] == front[j];
    }
  }
}
