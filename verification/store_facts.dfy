/** What `ArrayStore` and `EntityStore` promise. */
module StoreFacts {
  import opened Outcomes
  import opened AssocLists
  import opened Entities

  // ---------------------------------------------------------- ArrayStore

  /** Every key the store was built with reads back its value; any other key is
      missing. */
  lemma ArrayStoreGet(env: Callables, data: Assoc<Value>, k: string)
    ensures forall i | 0 <= i < |data| :: StoreGet(env, ArrayStore(data), data[i].0) == Ok(data[i].1)
    ensures k !in Keys(data) ==> StoreGet(env, ArrayStore(data), k) == Fail(Missing)
  {
    forall i | 0 <= i < |data| ensures StoreGet(env, ArrayStore(data), data[i].0) == Ok(data[i].1) {
      assert Find(data, data[i].0) == Some(data[i].1);
    }
  }

  /** `has` is membership of the key, and never fails. */
  lemma ArrayStoreHas(env: Callables, data: Assoc<Value>, k: string)
    ensures StoreHas(env, ArrayStore(data), k) == Ok(k in Keys(data))
  {
  }

  /** `set` returns a new array store in which every key of the change set reads
      its new value (inserted or overwritten) and every other key reads what it
      read before; the keys already present keep their positions. */
  lemma ArrayStoreSet(env: Callables, data: Assoc<Value>, changes: ChangeSet, k: string)
    ensures StoreSet(env, ArrayStore(data), changes).Ok?
    ensures var s := StoreSet(env, ArrayStore(data), changes).value;
      && s.ArrayStore?
      && Keys(s.data) == Keys(data) + Keys(changes)
      && (forall i | 0 <= i < |data| :: s.data[i].0 == data[i].0)
      && StoreGet(env, s, k) ==
           if k in Keys(changes) then StoreGet(env, ArrayStore(changes), k)
           else StoreGet(env, ArrayStore(data), k)
  {
  }

  // --------------------------------------------------------- EntityStore

  /** `get` is the wrapped entity's `get` of the same key, failures included. */
  lemma EntityStoreGet(env: Callables, e: Entity, k: string)
    ensures StoreGet(env, EntityStore(e), k) == Get(env, e, k)
  {
  }

  /** `has` is true when the entity reads the key and false, without failing,
      when that read fails out of bounds. */
  lemma EntityStoreHas(env: Callables, e: Entity, k: string)
    ensures Get(env, e, k).Ok? ==> StoreHas(env, EntityStore(e), k) == Ok(true)
    ensures Get(env, e, k).Fail? && OutOfBounds(Get(env, e, k).failure) ==>
      StoreHas(env, EntityStore(e), k) == Ok(false)
  {
  }

  /** `set` hands the commit, unmodified, to the entity's `set` and wraps the
      entity it returns (same schema) in a new entity store. */
  lemma EntityStoreSet(env: Callables, e: Entity, commit: ChangeSet)
    requires WellFormed(e)
    ensures StoreSet(env, EntityStore(e), commit).Ok? <==> Set(env, e, commit).Ok?
    ensures StoreSet(env, EntityStore(e), commit).Ok? ==>
      && StoreSet(env, EntityStore(e), commit).value == EntityStore(Set(env, e, commit).value)
      && Set(env, e, commit).value.schema == e.schema
  {
  }
}
