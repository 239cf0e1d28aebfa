# Entities: a Dafny model of the attribute read/write protocol

RebelCode/entities describes records as a *schema* plus a *store*. The schema
maps each attribute name to a *property* and may give a default value per
attribute. The store maps store keys to values. An entity reads an attribute by
asking the property registered under its name to read the entity. The property
decides which store keys to consult, or computes the value itself. An entity
writes a batch of attributes in three steps:

- it asks each property for a *commit*, that is, a change set of store keys and
  values;
- it merges the commits in input order with `array_merge`;
- it hands the merge to the store's `set` once.

Stores and entities are immutable: `set` returns a new store and a new entity.

The model is split into these files:

- `outcomes.dfy` (module `Outcomes`): PHP exceptions become a `Result`.
  `Missing` and `Unknown` are the two `OutOfBoundsException`s (a missing store
  key and an unknown attribute). `Other` is any other exception a user callable
  may throw.
- `assoc_lists.dfy` (module `AssocLists`): PHP's ordered string-keyed arrays as
  sequences of pairs with unique keys. `Find` is the lookup, `Put` is
  `$a[$k] = $v` and `Merge` is `array_merge`.
- `entities.dfy` (module `Entities`): the data model and every operation.
  - The datatypes are `Property` (`Property`, `DefaultingProperty`,
    `StaticProperty`, `CallbackProperty`, `CallbackDecoratorProperty`),
    `Schema`, `Store` (`ArrayStore`, `EntityStore`) and `Entity`.
  - The reads are `Get`, `GetValue`, `FirstFound`, `StoreGet` and `StoreHas`.
  - The writes are `SetValue`, `Step`/`Collect`, `Set` and `StoreSet`.
  - `Export` and `ExportAll` list the attributes.
  - User callables are foreign code. They arrive as the `Callables` parameter:
    one total function per kind of hook, indexed by a callable id.
- `entity_writes.dfy` (module `EntityWrites`): `Entity::set` as the loop it is.
  It is proved equal to `Set`.
- `entity_facts.dfy`, `store_facts.dfy` and `property_facts.dfy`: the properties
  of entities, of the two stores and of each kind of property.

## Model

| member | source | states |
|---|---|---|
| AssocLists.Put | test/unit/Stores/ArrayStoreTest.php:106-146 | Assigning a key overwrites it in place when present and appends it otherwise. Afterwards the key reads the new value, every other key reads what it read before, the key set grows by exactly that key, and existing keys keep their positions. |
| AssocLists.PutAppends | test/unit/Stores/ArrayStoreTest.php:106-124 | Assigning a key the array does not hold appends exactly that entry at the end. |
| AssocLists.MergeDisjoint | test/unit/EntityTest.php:207-214 | `array_merge` of two arrays with no key in common is their concatenation, as with the two disjoint change sets of the test. |
| AssocLists.Merge | test/unit/EntityTest.php:207-214 | `array_merge(a, b)`: the keys are those of `a` and of `b`, a key of `b` reads `b`'s value (the later array wins), any other key reads `a`'s value, and `a`'s keys keep their positions. |
| Entities.StoreHas | test/unit/Stores/EntityStoreTest.php:78-110 | `has` is `Ok(true)` exactly when `get` succeeds, and `Ok(false)` exactly when `get` fails out of bounds. Any other failure of `get` is passed on unchanged. |
| Entities.ExportAll | test/unit/EntityTest.php:365-417 | The export succeeds exactly when every listed attribute reads. It then has one entry per attribute, in order, each named after its attribute and holding the value `get` returns for it. |
| EntityFacts.GetReturnsPropertyValue | test/unit/EntityTest.php:83-103 | `get` of a registered attribute returns what its property's `getValue` returns, with the entity itself as the argument. |
| EntityFacts.GetUnregistered | test/unit/EntityTest.php:108-123 | `get` of a name the schema does not register fails out of bounds (`Unknown`). |
| EntityFacts.GetFallsBackToDefault | test/unit/EntityTest.php:128-151 | When the property fails out of bounds and the schema has a default for the name, `get` returns that default. |
| EntityFacts.GetPropagatesFailure | test/unit/EntityTest.php:128-151 | Any other failure of the property, and an out-of-bounds failure with no default, reaches the caller of `get` unchanged. The test shows the fallback; the propagation is the model's choice (see Left out). |
| EntityFacts.CollectKeepsFailure | test/unit/EntityTest.php:262-285 | Once an entry of the batch fails, the batch fails with that failure, and no later entry changes the outcome. |
| EntityFacts.CollectLastWriteWins | test/unit/EntityTest.php:200-257 | The merged change set holds, for every store key, the value of the last commit in input order that wrote that key. It holds no key that no commit wrote. `LastWrite` is the independent backwards-scan reference. |
| EntityFacts.CollectSkipsOutOfBounds | test/unit/EntityTest.php:290-360 | An entry whose `setValue` fails out of bounds contributes nothing. The batch equals the batch without that entry, so later entries are still processed. |
| EntityFacts.SetUnregisteredName | test/unit/EntityTest.php:262-285 | An unregistered name in the batch fails the whole `set` with an out-of-bounds failure before the store is written. |
| EntityFacts.SetCommitsOnce | test/unit/EntityTest.php:156-195 | `set` succeeds exactly when the batch merges and the single store `set` succeeds. The result has the same schema and holds the store that `set` returned. |
| EntityFacts.CollectSingle | test/unit/EntityTest.php:156-195 | A batch of one entry whose property write succeeds commits exactly that property's change set, unchanged. |
| EntityFacts.SetIntoArrayStore | test/unit/Stores/ArrayStoreTest.php:151-188 | An entity over an array store commits its merged batch by `array_merge` into the store's data. |
| EntityFacts.DirectWriteThenRead | test/unit/Properties/PropertyTest.php:50-107 | Writing an attribute backed by a direct property into an array store, then reading it back, yields the value written. |
| EntityFacts.DefaultingWriteThenRead | test/unit/Properties/DefaultingPropertyTest.php:51-149 | The same round trip through a fallback chain: the write goes to the first key, and the read finds it there first. |
| EntityFacts.ExportReadsEveryAttribute | test/unit/EntityTest.php:365-483 | `export` succeeds exactly when every registered attribute reads. Its result lists every registered name once, in schema order, each with the value `get` returns (defaults included). |
| EntityFacts.ExportFailsAtFirstFailure | test/unit/EntityTest.php:365-417 | A failing export fails with the failure of the first attribute, in schema order, whose read fails; every attribute before it reads. The test shows only the successful export; stopping at the first failure is the model's choice (see Left out). |
| EntityWrites.WriteBatch | test/unit/EntityTest.php:200-360 | The loop of `Entity::set` returns exactly the result of `Set`: the same failure, or the same new entity. |
| StoreFacts.ArrayStoreGet | test/unit/Stores/ArrayStoreTest.php:26-62 | Every key the store holds reads its value. Any other key fails as missing. |
| StoreFacts.ArrayStoreHas | test/unit/Stores/ArrayStoreTest.php:67-101 | `has` is key membership and never fails. |
| StoreFacts.ArrayStoreSet | test/unit/Stores/ArrayStoreTest.php:106-188 | `set` always succeeds with a new array store. The new store's keys are the old ones plus the change set's, and old keys keep their positions. A changed key reads its new value and every other key reads its old one. |
| StoreFacts.EntityStoreGet | test/unit/Stores/EntityStoreTest.php:39-73 | `get` is the wrapped entity's `get` of the same key, failures included. |
| StoreFacts.EntityStoreHas | test/unit/Stores/EntityStoreTest.php:78-110 | `has` is true when the wrapped entity reads the key, and false (without failing) when that read fails out of bounds. |
| StoreFacts.EntityStoreSet | test/unit/Stores/EntityStoreTest.php:115-139 | `set` hands the commit unmodified to the wrapped entity's `set`. It succeeds exactly when that succeeds, and wraps the returned entity, which keeps its schema, in a new entity store. |
| PropertyFacts.DirectProperty | test/unit/Properties/PropertyTest.php:50-107 | A direct property reads its key from the entity's store, failures included. It writes the one-key change set {key: value}. |
| PropertyFacts.DefaultingFallback | test/unit/Properties/DefaultingPropertyTest.php:51-127 | The fallback chain returns the result of the first key whose read does not fail out of bounds. It fails as missing when every key fails out of bounds. |
| PropertyFacts.DefaultingReadsThirdKey | test/unit/Properties/DefaultingPropertyTest.php:72-100 | With the first two keys absent, the chain reads the third key's value. |
| PropertyFacts.DefaultingEmptyChain | test/unit/Properties/DefaultingPropertyTest.php:105-127 | The every-key-missing rule carried over to the empty chain (a chain that can be constructed): its read fails as missing. |
| PropertyFacts.DefaultingWritesFirstKey | test/unit/Properties/DefaultingPropertyTest.php:132-149 | A write returns exactly the change set {first key: value}. No other key, from the chain or elsewhere, is written. |
| PropertyFacts.StaticProperty | test/unit/Properties/StaticPropertyTest.php:38-62 | A static property reads its fixed value, whatever the entity, and turns every write into the empty change set. |
| PropertyFacts.CallbackGetValue | src/Properties/CallbackProperty.php:50-57 | With no getter the read is `null`. Otherwise it is the getter applied to the entity, failures included. |
| PropertyFacts.CallbackSetValue | src/Properties/CallbackProperty.php:64-71 | With no setter the write is the empty change set. Otherwise it is the setter's commit for (entity, value), as returned. |
| PropertyFacts.DecoratorGetValue | src/Properties/AbstractDecoratorProperty.php:39-42 | The decorated read applies the getter hook to the inner property's value. An inner failure propagates and the hook is not run. |
| PropertyFacts.DecoratorSetValue | src/Properties/AbstractDecoratorProperty.php:49-52 | The setter hook runs first, and the inner property writes the hook's output; its change set is the result. A failing hook fails the write. |
| PropertyFacts.CallbackHooks | src/Properties/CallbackDecoratorProperty.php:59-76 | Each hook is its callback applied to (entity, value) when one is given, and the identity otherwise. |
| PropertyFacts.DecoratorWithoutCallbacks | test/unit/Properties/CallbackDecoratorPropertyTest.php:80-154 | A decorator without callbacks reads and writes exactly as the property it decorates. |
| PropertyFacts.TransparentTower | test/unit/Properties/AbstractDecoratorPropertyTest.php:63-108 | Any stack of callback-free decorators reads and writes exactly as the property at its bottom. |

## Left out

- Mock expectations in the tests, such as "called once" and "never called", are not modelled as counts. "Once" is structural: `Set` makes one `StoreSet` call. "Never" means the failing paths return before `StoreSet`.
- User callables are foreign code. Their behaviour is the `Callables` parameter, which may return any value or any failure.
- Values are PHP scalars (`null`, strings, integers). Arrays and objects as attribute values are not modelled.
- Store keys and attribute names are strings. `array_merge` renumbers integer keys, and that renumbering is not modelled.
- The `Api` interfaces, `Schema` as a class (its getters are fields of the `Schema` datatype) and object identity (`assertSame`) are not modelled. Equality of values stands in for identity.
- test/unit/Schemas/SchemaTest.php (the schema's own constructor and getters) is not part of this model beyond the two fields.
- Entities.SetValue: writing to a `DefaultingProperty` with an empty key chain is not modelled. The tests construct such a property (test/unit/Properties/DefaultingPropertyTest.php:43) but never read or write it, and the code that writes its first key is not part of this model. The `Writable` precondition excludes this write rather than modelling it as a failure.
- Entities.Set: `Set`, `Collect`, `Step` and every lemma about writes require `WellFormed`. That predicate asks every property of the schema to be writable, not only the properties the batch names. It also applies to every entity reached through an `EntityStore`. So the model says nothing about `set` on an entity whose schema registers a `DefaultingProperty` with an empty chain anywhere, even under a name the batch does not write.
- Entities.Step: during `set`, a failure other than out-of-bounds (an exception thrown by a user setter) aborts the whole batch, and the store is not written. This is a choice of the model. The tests only show an `OutOfBoundsException` being skipped (test/unit/EntityTest.php:335-338, 345-348). What `set` does with any other exception is not shown, and the code of `Entity::set` is not part of this model.
- Entities.StoreHas: for an entity store, a read failure other than out-of-bounds is passed on rather than answered with `false`. This is also a choice of the model: the tests show only a successful read and an out-of-bounds one.
- Entities.Get: a failure of the property other than out-of-bounds reaches the caller unchanged, with no default applied. This is a choice of the model, because the tests show only a successful read and a default replacing an out-of-bounds failure.
- Entities.Export: `export` stops at the first attribute whose read fails and fails with that failure. This is a choice of the model, because the tests show only exports in which every read succeeds, directly or through a default (test/unit/EntityTest.php:365-483).
- PropertyFacts.CallbackHooks: the doc comment of `CallbackDecoratorProperty`'s constructor says the setter returns a commit and runs after the decorated setter. The code (src/Properties/CallbackDecoratorProperty.php:71-76 with src/Properties/AbstractDecoratorProperty.php:49-52) runs it before, on the value. The model follows the code.
- Missing keys and unknown attributes are both `OutOfBoundsException` in the code. Every fallback, skip and `has` reacts to both alike, and so does the model.
