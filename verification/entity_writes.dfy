/** `Entity::set` as the loop it is: one pass over the (name, value) pairs that
    accumulates the merged change set, then a single store write. */
module EntityWrites {
  import opened Outcomes
  import opened AssocLists
  import opened Entities
  import EntityFacts

  method WriteBatch(env: Callables, e: Entity, pairs: Assoc<Value>) returns (r: Result<Entity>)
    requires WellFormed(e)
    ensures r == Set(env, e, pairs)
  {
    var changes: ChangeSet := [];
    var i := 0;
    while i < |pairs|
      invariant 0 <= i <= |pairs|
      invariant Collect(env, e, pairs[..i]) == Ok(changes)
    {
      var (name, v) := pairs[i];
      assert pairs[..i + 1][..i] == pairs[..i];
      assert Collect(env, e, pairs[..i + 1]) == Step(env, e, Ok(changes), (name, v));
      var found := Find(e.schema.properties, name);
      if found.None? {
        EntityFacts.CollectKeepsFailure(env, e, pairs, i + 1);
        return Fail(Unknown);
      }
      var written := SetValue(env, found.value, e, v);
      if written.Ok? {
        changes := Merge(changes, written.value);
      } else if !OutOfBounds(written.failure) {
        EntityFacts.CollectKeepsFailure(env, e, pairs, i + 1);
        return Fail(written.failure);
      }
      i := i + 1;
    }
    assert pairs[..i] == pairs;
    var stored := StoreSet(env, e.store, changes);
    if stored.Fail? {
      return Fail(stored.failure);
    }
    r := Ok(Entity(e.schema, stored.value));
  }
}
