/** The attribute read/write protocol: entities, schemas, properties and stores.

    An entity reads an attribute by asking the property registered under its
    name, which reads the entity's store; it writes a batch of attributes by
    collecting one change set per attribute, merging them in input order and
    handing the merge to its store's `set` once. Everything is a value: a write
    yields a new entity around a new store.

    The datatypes are mutually recursive (an `EntityStore` wraps an entity),
    and so are the reads (`Get` -> `GetValue` -> `StoreGet` -> `Get`) and the
    writes (`Set` -> `StoreSet` -> `Set`); all of them terminate because each
    round trip moves to the store of the entity wrapped by the current store. */
module Entities {
  import opened Outcomes
  import opened AssocLists

  /** A PHP scalar attribute or store value. */
  datatype Value = Null | Str(s: string) | Int(i: int)

  /** A commit: store key -> new value, in the order the writes were made. */
  type ChangeSet = Assoc<Value>

  /** Names a user-supplied PHP callable; what it does is given by `Callables`. */
  type CallableId = nat

  datatype Property =
      /** `Property`: one store key. */
    | Direct(key: string)
      /** `DefaultingProperty`: a fallback chain of store keys. */
    | Defaulting(keys: seq<string>)
      /** `StaticProperty`: a fixed value. */
    | Static(fixed: Value)
      /** `CallbackProperty`: an optional getter and an optional setter. */
    | Callback(getter: Option<CallableId>, setter: Option<CallableId>)
      /** `CallbackDecoratorProperty`: optional callbacks around another property. */
    | Decorator(inner: Property, getter: Option<CallableId>, setter: Option<CallableId>)

  /** `Schema`: attribute name -> property, and attribute name -> default value. */
  datatype Schema = Schema(properties: Assoc<Property>, defaults: Assoc<Value>)

  datatype Store =
      /** `ArrayStore`: the in-memory, copy-on-write store. */
    | ArrayStore(data: Assoc<Value>)
      /** `EntityStore`: an entity serving as the store of another entity. */
    | EntityStore(entity: Entity)

  datatype Entity = Entity(schema: Schema, store: Store)

  /** The behaviour of the user callables, which is foreign code:
      `read(c, e)` is a `CallbackProperty` getter, `write(c, e, v)` its setter,
      `decorateGet(c, e, v)` and `decorateSet(c, e, v)` the getter and setter of a
      `CallbackDecoratorProperty`. Each may fail with any failure. */
  datatype Callables = Callables(
    read: (CallableId, Entity) -> Result<Value>,
    write: (CallableId, Entity, Value) -> Result<ChangeSet>,
    decorateGet: (CallableId, Entity, Value) -> Result<Value>,
    decorateSet: (CallableId, Entity, Value) -> Result<Value>)

  /** A property whose `setValue` is defined: a `DefaultingProperty` needs a first
      key to write to (it is never exercised with an empty chain). */
  predicate Writable(p: Property) {
    match p
    case Defaulting(keys) => keys != []
    case Decorator(inner, _, _) => Writable(inner)
    case _ => true
  }

  /** Every property of the entity, and of every entity its store wraps, is writable. */
  predicate WellFormed(e: Entity)
    decreases e
  {
    && (forall i | 0 <= i < |e.schema.properties| :: Writable(e.schema.properties[i].1))
    && (e.store.EntityStore? ==> WellFormed(e.store.entity))
  }

  // ---------------------------------------------------------------- reads

  /** `Entity::get`: the property registered under `name` reads the entity; an
      out-of-bounds failure falls back to the schema's default for `name`. */
  function Get(env: Callables, e: Entity, name: string): Result<Value>
    decreases e.store, 3
  {
    match Find(e.schema.properties, name)
    case None => Fail(Unknown)
    case Some(p) =>
      var got := GetValue(env, p, e);
      if got.Fail? && OutOfBounds(got.failure) then
        match Find(e.schema.defaults, name)
        case Some(d) => Ok(d)
        case None => got
      else got
  }

  /** `PropertyInterface::getValue` for each kind of property. */
  function GetValue(env: Callables, p: Property, e: Entity): Result<Value>
    decreases e.store, 2, p
  {
    match p
    case Direct(key) => StoreGet(env, e.store, key)
    case Defaulting(keys) => FirstFound(env, e.store, keys)
    case Static(v) => Ok(v)
    case Callback(getter, _) =>
      if getter.None? then Ok(Null) else env.read(getter.value, e)
    case Decorator(inner, getter, _) =>
      match GetValue(env, inner, e)
      case Fail(f) => Fail(f)
      case Ok(v) => GetterHook(env, getter, e, v)
  }

  /** The fallback walk of `DefaultingProperty::getValue`: the first key whose
      store read succeeds; an out-of-bounds failure moves on to the next key. */
  function FirstFound(env: Callables, s: Store, keys: seq<string>): Result<Value>
    decreases s, 1, |keys|
  {
    if keys == [] then Fail(Missing)
    else
      var got := StoreGet(env, s, keys[0]);
      if got.Fail? && OutOfBounds(got.failure) then FirstFound(env, s, keys[1..])
      else got
  }

  /** `StoreInterface::get`. */
  function StoreGet(env: Callables, s: Store, key: string): Result<Value>
    decreases s, 0
  {
    match s
    case ArrayStore(data) =>
      (match Find(data, key)
       case Some(v) => Ok(v)
       case None => Fail(Missing))
    case EntityStore(entity) => Get(env, entity, key)
  }

  /** `StoreInterface::has`: whether `get` succeeds. An out-of-bounds failure
      reads as absent; any other failure propagates. */
  function StoreHas(env: Callables, s: Store, key: string): (r: Result<bool>)
    ensures r == Ok(true) <==> StoreGet(env, s, key).Ok?
    ensures r == Ok(false) <==> StoreGet(env, s, key).Fail? && OutOfBounds(StoreGet(env, s, key).failure)
    ensures r.Fail? ==> StoreGet(env, s, key) == Fail(r.failure)
  {
    match s
    case ArrayStore(data) => Ok(key in Keys(data))
    case EntityStore(entity) =>
      var got := Get(env, entity, key);
      if got.Ok? then Ok(true)
      else if OutOfBounds(got.failure) then Ok(false)
      else Fail(got.failure)
  }

  /** `CallbackDecoratorProperty::getter`: the callback, or the identity. */
  function GetterHook(env: Callables, getter: Option<CallableId>, e: Entity, v: Value): Result<Value> {
    if getter.None? then Ok(v) else env.decorateGet(getter.value, e, v)
  }

  /** `CallbackDecoratorProperty::setter`: the callback, or the identity. */
  function SetterHook(env: Callables, setter: Option<CallableId>, e: Entity, v: Value): Result<Value> {
    if setter.None? then Ok(v) else env.decorateSet(setter.value, e, v)
  }

  // --------------------------------------------------------------- writes

  /** `PropertyInterface::setValue` for each kind of property: the change set
      that writing `v` to the attribute makes in the store. */
  function SetValue(env: Callables, p: Property, e: Entity, v: Value): Result<ChangeSet>
    requires Writable(p)
    decreases p
  {
    match p
    case Direct(key) => Ok([(key, v)])
    case Defaulting(keys) => Ok([(keys[0], v)])
    case Static(_) => Ok([])
    case Callback(_, setter) =>
      if setter.None? then Ok([]) else env.write(setter.value, e, v)
    case Decorator(inner, _, setter) =>
      match SetterHook(env, setter, e, v)
      case Fail(f) => Fail(f)
      case Ok(w) => SetValue(env, inner, e, w)
  }

  /** One turn of the loop of `Entity::set`: the entry's name is resolved (an
      unregistered name aborts with `Unknown`) and its property's change set is
      merged after what came before; a property whose write fails out of bounds
      is skipped, and any other failure aborts. */
  function Step(env: Callables, e: Entity, acc: Result<ChangeSet>, pair: (string, Value)): Result<ChangeSet>
    requires WellFormed(e)
  {
    match acc
    case Fail(f) => Fail(f)
    case Ok(changes) =>
      match Find(e.schema.properties, pair.0)
      case None => Fail(Unknown)
      case Some(p) =>
        assert Writable(p);
        match SetValue(env, p, e, pair.1)
        case Ok(written) => Ok(Merge(changes, written))
        case Fail(f) => if OutOfBounds(f) then Ok(changes) else Fail(f)
  }

  /** The merged change set of the entries of `pairs`, processed in order. */
  function Collect(env: Callables, e: Entity, pairs: seq<(string, Value)>): Result<ChangeSet>
    requires WellFormed(e)
    decreases |pairs|
  {
    if pairs == [] then Ok([])
    else Step(env, e, Collect(env, e, pairs[..|pairs| - 1]), pairs[|pairs| - 1])
  }

  /** `Entity::set`: one `store.set` with the merged change set, and a new entity
      with the same schema around the store it returns. */
  function Set(env: Callables, e: Entity, pairs: Assoc<Value>): Result<Entity>
    requires WellFormed(e)
    decreases e.store, 1
  {
    match Collect(env, e, pairs)
    case Fail(f) => Fail(f)
    case Ok(changes) =>
      match StoreSet(env, e.store, changes)
      case Fail(f) => Fail(f)
      case Ok(s) => Ok(Entity(e.schema, s))
  }

  /** `StoreInterface::set`: a new store with the change set applied; the
      receiver is a value and is left as it was. */
  function StoreSet(env: Callables, s: Store, changes: ChangeSet): Result<Store>
    requires s.EntityStore? ==> WellFormed(s.entity)
    decreases s, 0
  {
    match s
    case ArrayStore(data) => Ok(ArrayStore(Merge(data, changes)))
    case EntityStore(entity) =>
      match Set(env, entity, changes)
      case Fail(f) => Fail(f)
      case Ok(e') => Ok(EntityStore(e'))
  }

  // --------------------------------------------------------------- export

  /** `Entity::export`: every registered attribute with the value `Get` reads for
      it, in schema order; the first failing read aborts the export. */
  function Export(env: Callables, e: Entity): Result<Assoc<Value>> {
    match ExportAll(env, e, e.schema.properties)
    case Fail(f) => Fail(f)
    case Ok(values) =>
      assert UniqueKeys(values) by {
        assert forall i | 0 <= i < |values| :: values[i].0 == e.schema.properties[i].0;
      }
      Ok(values)
  }

  /** The export of the attributes named in `props`, in their order. */
  function ExportAll(env: Callables, e: Entity, props: seq<(string, Property)>): (r: Result<seq<(string, Value)>>)
    ensures r.Ok? <==> forall i | 0 <= i < |props| :: Get(env, e, props[i].0).Ok?
    ensures r.Ok? ==> |r.value| == |props|
    ensures r.Ok? ==> forall i | 0 <= i < |props| ::
      r.value[i].0 == props[i].0 && Get(env, e, props[i].0) == Ok(r.value[i].1)
    decreases |props|
  {
    if props == [] then Ok([])
    else
      var n := |props| - 1;
      match ExportAll(env, e, props[..n])
      case Fail(f) => Fail(f)
      case Ok(acc) =>
        var name := props[n].0;
        match Get(env, e, name)
        case Fail(f) => Fail(f)
        case Ok(v) => Ok(acc + [(name, v)])
  }
}
