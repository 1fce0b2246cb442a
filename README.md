# pythonize serializer, modelled in Dafny

This project models `src/ser.rs` of pythonize, a serde `Serializer`. It takes any
Rust value that implements `Serialize` and builds the Python object that
represents it:

- `None`, `()` and unit structs become `None`;
- numbers, characters, strings and bytes become the matching Python scalars;
- sequences become lists, and tuples and tuple structs become tuples;
- maps and structs become dicts;
- a non-unit enum variant becomes a one-entry dict `{variant: payload}`.

The choice of mapping and sequence class is a type parameter `P:
PythonizeTypes`. Errors are either serde custom messages or Python exceptions
raised while the tree is built. The only Python exception the model raises is
an unhashable dict key.

Modules:

- `Base` holds `Option`, `Result` and a unit-valued `Outcome`, which stands for
  Rust's `Result<()>`.
- `Serde` holds the serde data model as a datatype, `Serde.Value`. Each
  constructor stands for the `serialize_*` call a value makes: `Int` covers the
  ten integer calls `serialize_i8` to `serialize_u128`, with the width recorded,
  and the two float calls have no constructor. A derived `Serialize`
  implementation is modelled by the `Value` it feeds in.
- `PyObjects` holds the Python side:
  - the object tree `PyObj`;
  - hashability;
  - the adapter `Adapter(mapClass, listClass)`, which stands for
    `PythonizeTypes`;
  - an insertion-ordered dict, with `Insert` as `__setitem__`;
  - the class `PyMapping`, a dict being filled in place.
- `Ser` holds the serializer itself:
  - `Convert` is the whole serializer as one recursive function.
  - The compound serializers (`PythonCollectionSerializer`,
    `PythonTupleVariantSerializer`, `PythonMapSerializer`,
    `PythonDictSerializer`, `PythonStructVariantSerializer`) are classes with
    the same fields, updated by the methods serde calls.
  - Driver methods feed a `Value` to those classes with loops. Each driver is
    proved to produce exactly `Convert`.
- `SerProperties`, `SerAdapters` and `SerExamples` prove the behaviour the
  source promises:
  - null-likeness;
  - transparency of wrappers;
  - variants wrapped exactly once;
  - order of sequences and struct fields;
  - first-error propagation;
  - last-write-wins for repeated map keys;
  - well-formedness of the result;
  - independence of the tree's shape from the chosen classes;
  - the outputs of the source's own test cases.

## Model

| member | source | states |
|---|---|---|
| PyObjects.Hashable | src/ser.rs:403-408 | Python's `hash()` succeeds: it holds for every scalar and for a tuple whose items are all hashable, and never for a list or a dict; it alone decides whether `set_item` raises `TypeError` |
| PyObjects.FindKey | src/ser.rs:399-410 | the position found is the first entry holding the key; none is found only when no entry holds it |
| PyObjects.Insert | src/ser.rs:399-410 | after `__setitem__(k, v)` the key looks up to `v`, every other key looks up as before, a new key is appended at the end, an existing key keeps its place, and distinct keys stay distinct |
| PyObjects.FindKeyAppend | src/ser.rs:399-410 | appending an entry never moves the first occurrence of a key already present |
| PyObjects.SetItemResult | src/ser.rs:403-409 | `set_item` fails exactly when the key is unhashable, with `TypeError: unhashable type` carrying that key; otherwise the key then looks up to the value and every other key looks up as before |
| PyObjects.PyMapping.constructor | src/ser.rs:38-40 | a new mapping of the requested class is empty |
| PyObjects.PyMapping.SetItem | src/ser.rs:403-409 | a set-item on the mapping in place passes or fails as `SetItemResult` says; on failure the mapping is unchanged |
| Ser.FreshDictSetItem | src/ser.rs:241-243 | storing a variant name in a fresh dict cannot fail and gives a dict with exactly that one entry |
| Ser.ConvertLeaf | src/ser.rs:140-222 | the scalar `serialize_*` methods: a leaf fails only for `i128` and `u128`, and never becomes a list, tuple or dict |
| Ser.Convert | src/ser.rs:140-315 | a definition of what `value.serialize(Pythonizer)` returns, with one case per `serialize_*` method; the lemmas below state its properties |
| Ser.StoreValue | src/ser.rs:399-410 | converting a value and storing it under a converted key: the value's error comes first, an unhashable key fails with that key, and otherwise the key looks up to the value and no other key's lookup changes |
| Ser.StorePair | src/ser.rs:391-410 | one map entry is stored exactly when key and value convert and the key is hashable; then the converted key looks up to the converted value and no other key's lookup changes |
| Ser.StoreField | src/ser.rs:421-429 | a struct field is stored exactly when its value converts; then the field name, as a string key, looks up to the converted value and no other key's lookup changes |
| Ser.ConvertItems | src/ser.rs:322-328 | the element list succeeds exactly when every element converts, and then holds each element's conversion at the same index |
| Ser.ConvertPairs | src/ser.rs:387-414 | a converted map has distinct, hashable keys and no more entries than pairs were fed in |
| Ser.ConvertFields | src/ser.rs:417-433 | a converted struct has distinct string keys |
| Ser.CollectionSerializer.constructor | src/ser.rs:246-264 | a collection serializer starts with no items |
| Ser.CollectionSerializer.SerializeElement | src/ser.rs:322-328 | an element that converts is appended after the earlier items; one that fails leaves the items as they were and returns its error |
| Ser.CollectionSerializer.EndSeq | src/ser.rs:330-332 | ending a sequence gives a list of the adapter's list class holding exactly the collected items |
| Ser.CollectionSerializer.EndTuple | src/ser.rs:346-348 | ending a tuple or tuple struct gives a tuple holding exactly the collected items |
| Ser.TupleVariantSerializer.constructor | src/ser.rs:274-283 | a tuple-variant serializer remembers the variant name and starts with an empty inner collection |
| Ser.TupleVariantSerializer.SerializeField | src/ser.rs:373-378 | a field is appended to the inner items as a tuple element is |
| Ser.TupleVariantSerializer.End | src/ser.rs:380-384 | the result is a plain dict mapping the variant name to the tuple of fields |
| Ser.MapSerializer.constructor | src/ser.rs:285-290 | a map serializer starts with an empty mapping of the adapter's class and no pending key |
| Ser.MapSerializer.SerializeKey | src/ser.rs:391-397 | a key that converts becomes the pending key (replacing any earlier one); a key that fails leaves the pending key as it was |
| Ser.MapSerializer.SerializeValue | src/ser.rs:399-410 | the pending key is consumed whatever happens; the value is stored under it as `StoreValue` says, and on failure the mapping is unchanged |
| Ser.MapSerializer.SerializeEntry | src/ser.rs:391-410 | an entry is a key and then a value, stored as `StorePair` says, leaving no pending key |
| Ser.MapSerializer.End | src/ser.rs:412-414 | the result is the mapping as filled |
| Ser.DictSerializer.constructor | src/ser.rs:292-300 | a struct serializer starts with an empty mapping of the adapter's class |
| Ser.DictSerializer.SerializeField | src/ser.rs:421-429 | a field's value is stored under its name as a string key; on failure the mapping is unchanged |
| Ser.DictSerializer.End | src/ser.rs:431-433 | the result is the mapping as filled |
| Ser.StructVariantSerializer.constructor | src/ser.rs:302-315 | a struct-variant serializer remembers the variant name and starts with an empty inner mapping of the adapter's class |
| Ser.StructVariantSerializer.SerializeField | src/ser.rs:442-451 | a field is stored in the inner mapping as a struct field is |
| Ser.StructVariantSerializer.End | src/ser.rs:453-457 | the result is a plain dict mapping the variant name to the inner mapping |
| Ser.ItemsStep | src/ser.rs:322-328 | feeding one more element keeps an earlier error, fails with the element's own error, or appends its conversion |
| Ser.PairsStep | src/ser.rs:391-410 | feeding one more map entry keeps an earlier error or stores the entry into the mapping built so far |
| Ser.FieldsStep | src/ser.rs:421-429 | feeding one more struct field keeps an earlier error or stores the field into the mapping built so far |
| Ser.ItemsFailFrom | src/ser.rs:322-328 | once an element has failed, later elements cannot change the result |
| Ser.PairsFailFrom | src/ser.rs:391-410 | once a map entry has failed, later entries cannot change the result |
| Ser.FieldsFailFrom | src/ser.rs:421-429 | once a struct field has failed, later fields cannot change the result |
| Ser.PythonizeCustom | src/ser.rs:82-91 | serializing with adapter `P` produces exactly `Convert(P, v)`, dispatching each kind of value to its serializer |
| Ser.Pythonize | src/ser.rs:73-78 | `pythonize` is `pythonize_custom` with the default dict and list classes |
| Ser.SerializeCollection | src/ser.rs:246-272 | serializing a sequence, tuple or tuple struct element by element equals `Convert` |
| Ser.CollectionResult | src/ser.rs:246-272 | a sequence is a list of the adapter's class and a tuple or tuple struct a tuple, of the converted elements, or else the error of converting the elements (`FirstFailingElementDecides` shows it is the first failing element's) |
| Ser.SerializeTupleVariant | src/ser.rs:274-283 | serializing a tuple variant field by field equals `Convert` |
| Ser.TupleVariantResult | src/ser.rs:274-283 | a tuple variant is `{variant: tuple of fields}`, or else the error of converting the fields (`FirstFailingElementDecides` shows it is the first failing field's) |
| Ser.SerializeMap | src/ser.rs:285-290 | serializing a map entry by entry equals `Convert` |
| Ser.MapResult | src/ser.rs:285-290 | a map is a mapping of the adapter's class holding the stored entries, or else the error of storing the entries (`FirstFailingPairDecides` shows it is the first failing entry's) |
| Ser.SerializeStruct | src/ser.rs:292-300 | serializing a struct field by field equals `Convert` |
| Ser.StructResult | src/ser.rs:292-300 | a struct is a mapping of the adapter's class holding the stored fields, or else the error of storing the fields (`FirstFailingFieldDecides` shows it is the first failing field's) |
| Ser.SerializeStructVariant | src/ser.rs:302-315 | serializing a struct variant field by field equals `Convert` |
| Ser.StructVariantResult | src/ser.rs:302-315 | a struct variant is `{variant: mapping of fields}`, or else the error of storing the fields (`FirstFailingFieldDecides` shows it is the first failing field's) |
| SerProperties.NullExactly | src/ser.rs:196-213 | a value becomes `None` exactly when it is `None`, `()`, a unit struct, or `Some`/a newtype struct around one of these |
| SerProperties.Unwrapped | src/ser.rs:200-229 | stripping `Some` and newtype structs leaves neither at the top |
| SerProperties.WrappersAreTransparent | src/ser.rs:200-229 | `Some(x)` and a newtype struct around `x` convert exactly as `x` does |
| SerProperties.LeafConversions | src/ser.rs:140-194 | booleans, integers up to 64 bits, characters (as one-character strings), strings and bytes convert to the matching scalar; `i128` and `u128` fail with serde's "not supported" message |
| SerProperties.UnitVariantIsBareString | src/ser.rs:215-222 | a unit variant is just its variant name as a string |
| SerProperties.VariantsWrapOnce | src/ser.rs:231-244 | a newtype, tuple or struct variant succeeds exactly when its payload does, and is then a one-entry plain dict from the variant name to the payload's conversion; otherwise it fails with the payload's error |
| SerProperties.SeqKeepsOrder | src/ser.rs:246-256 | a sequence succeeds exactly when every element does, and is then a list of the adapter's class with each element's conversion at the same index |
| SerProperties.TuplesBuildTuples | src/ser.rs:258-272 | a tuple struct converts as a tuple; a tuple succeeds exactly when the same elements as a sequence would, with the same items |
| SerProperties.FirstFailingElementDecides | src/ser.rs:322-328 | when every element before index `k` converts and element `k` does not, the sequence, tuple, tuple struct and tuple variant all fail with element `k`'s error |
| SerProperties.FirstOccurrences | src/ser.rs:399-410 | the distinct keys, in order of first occurrence |
| SerProperties.LastValue | src/ser.rs:399-410 | the last value written to a key is absent exactly when the key was never written |
| SerProperties.LastValueStep | src/ser.rs:399-410 | the last value written is the newest write to that key, or else the last value before it |
| SerProperties.InsertExtendsHistory | src/ser.rs:399-410 | one more `__setitem__` turns a dict that reflects a history of writes into one that reflects the longer history |
| SerProperties.MapSucceedsIff | src/ser.rs:387-414 | a map converts exactly when every key and value converts and every key is hashable |
| SerProperties.PairsOkOnlyIfAll | src/ser.rs:387-414 | a map that converts had every pair convertible |
| SerProperties.PairOkAt | src/ser.rs:387-414 | in a map that converts, the pair at any given index is convertible |
| SerProperties.PairsOkIfAll | src/ser.rs:387-414 | a map whose every pair is convertible converts |
| SerProperties.FirstFailingPairDecides | src/ser.rs:391-410 | when every pair before index `k` can be stored and pair `k` cannot, the map fails with pair `k`'s error: its key's error, else its value's, else `TypeError` for its unhashable key |
| SerProperties.PairsLastWriteWins | src/ser.rs:391-410 | the built mapping holds each distinct key once, in order of first occurrence, with the value written last |
| SerProperties.MapLastWriteWins | src/ser.rs:285-290 | a serialized map is a mapping of the adapter's class whose keys are the distinct keys in order of first occurrence, each holding the value written last |
| SerProperties.AppendFieldEntry | src/ser.rs:421-429 | storing a field with a new name appends it to the entries |
| SerProperties.StructSucceedsIff | src/ser.rs:417-433 | a struct converts exactly when every field value converts |
| SerProperties.FieldsOkOnlyIfAll | src/ser.rs:417-433 | a struct that converts had every field value convertible |
| SerProperties.FieldOkAt | src/ser.rs:417-433 | in a struct that converts, the field at any given index converted |
| SerProperties.FieldsOkIfAll | src/ser.rs:417-433 | a struct whose every field value converts converts |
| SerProperties.FirstFailingFieldDecides | src/ser.rs:421-429 | when every field value before index `k` converts and field `k`'s does not, the struct and the struct variant fail with field `k`'s error |
| SerProperties.StructLastWriteWins | src/ser.rs:421-429 | a repeated field name keeps its first position and the value written last |
| SerProperties.FieldsInOrder | src/ser.rs:421-429 | fields with distinct names appear in declaration order, each with its value |
| SerProperties.StructFieldsInOrder | src/ser.rs:292-300 | a struct with distinct field names is a mapping of the adapter's class holding its fields in declaration order |
| SerProperties.ConvertWellFormed | src/ser.rs:82-91 | every object the serializer builds is well-formed: every dict, at any depth, has distinct hashable keys |
| SerProperties.LeavesWellFormed | src/ser.rs:140-222 | scalar results are well-formed |
| SerProperties.WrappersWellFormed | src/ser.rs:200-244 | results of wrappers and newtype variants are well-formed |
| SerProperties.CollectionsWellFormed | src/ser.rs:246-283 | results of sequences, tuples and tuple variants are well-formed |
| SerProperties.MappingsWellFormed | src/ser.rs:285-315 | results of maps, structs and struct variants are well-formed |
| SerProperties.FieldsMappingWellFormed | src/ser.rs:417-433 | a mapping built from fields whose entries are well-formed is well-formed |
| SerProperties.WrapWellFormed | src/ser.rs:241-243 | wrapping a well-formed object in a variant dict keeps it well-formed |
| SerProperties.ItemsWellFormed | src/ser.rs:322-328 | converted elements are well-formed |
| SerProperties.InsertWellFormed | src/ser.rs:399-410 | inserting a well-formed key and value keeps all entries well-formed |
| SerProperties.PairsWellFormed | src/ser.rs:391-410 | the entries of a converted map are well-formed |
| SerProperties.FieldsWellFormed | src/ser.rs:421-429 | the entries of a converted struct are well-formed |
| SerAdapters.EraseKeepsHashable | src/ser.rs:11-70 | forgetting classes does not change hashability, and leaves hashable objects unchanged |
| SerAdapters.EraseInsert | src/ser.rs:399-410 | forgetting classes commutes with `__setitem__` of a hashable key |
| SerAdapters.AdapterOnlyPicksClasses | src/ser.rs:82-91 | with any adapter, the result (or error) is the default one with the mapping and sequence classes swapped in: the classes change nothing else |
| SerAdapters.LeavesHaveNoClass | src/ser.rs:140-222 | scalar results do not depend on the adapter |
| SerAdapters.WrappersOnlyPickClasses | src/ser.rs:200-244 | wrappers and newtype variants depend on the adapter only through the classes |
| SerAdapters.CollectionsOnlyPickClasses | src/ser.rs:246-283 | sequences, tuples and tuple variants depend on the adapter only through the classes |
| SerAdapters.MappingsOnlyPickClasses | src/ser.rs:285-315 | maps, structs and struct variants depend on the adapter only through the classes |
| SerAdapters.EraseWrap | src/ser.rs:241-243 | the variant wrapper is a plain dict whatever the adapter |
| SerAdapters.ItemsOnlyPickClasses | src/ser.rs:322-328 | element conversion depends on the adapter only through the classes |
| SerAdapters.PairsOnlyPickClasses | src/ser.rs:391-410 | map entry conversion depends on the adapter only through the classes |
| SerAdapters.FieldsOnlyPickClasses | src/ser.rs:421-429 | struct field conversion depends on the adapter only through the classes |
| SerAdapters.SameShapeForEveryAdapter | src/ser.rs:82-91 | two adapters give the same tree up to classes |
| SerAdapters.DefaultIsNative | src/ser.rs:64-70 | the default adapter builds only `dict` and `list` |
| SerExamples.EmptyStruct | src/ser.rs:493-499 | a unit struct is `None` |
| SerExamples.PlainStruct | src/ser.rs:501-516 | `Struct { foo: "foo", bar: 5 }` is `{"foo": "foo", "bar": 5}` |
| SerExamples.TupleStruct | src/ser.rs:518-524 | `TupleStruct("foo", 5)` is the tuple `("foo", 5)` |
| SerExamples.PlainTuple | src/ser.rs:526-529 | `("foo", 5)` is the tuple `("foo", 5)` |
| SerExamples.Vec | src/ser.rs:531-534 | `vec![1, 2, 3]` is the list `[1, 2, 3]` |
| SerExamples.SingletonMap | src/ser.rs:536-539 | `{"foo" => "foo"}` is `{"foo": "foo"}` |
| SerExamples.EnumUnitVariant | src/ser.rs:541-549 | `E::Empty` is the string `"Empty"` |
| SerExamples.EnumTupleVariant | src/ser.rs:551-559 | `E::Tuple(5, "foo")` is `{"Tuple": (5, "foo")}` |
| SerExamples.EnumNewtypeVariant | src/ser.rs:561-569 | `E::NewType("foo")` is `{"NewType": "foo"}` |
| SerExamples.EnumStructVariant | src/ser.rs:571-585 | `E::Struct { foo: "foo", bar: 5 }` is `{"Struct": {"foo": "foo", "bar": 5}}` |
| SerExamples.RepeatedMapKey | src/ser.rs:399-410 | keys `a, b, a` give `{a: last value, b: value}`, with `a` kept in first place |
| SerExamples.RepeatedKeyPairs | src/ser.rs:391-410 | three string-keyed entries are three successive inserts |
| SerExamples.RepeatedKeyInserts | src/ser.rs:399-410 | re-inserting the first key overwrites its value in place |
| SerExamples.StoreStringKey | src/ser.rs:391-410 | a string key with an integer value is always stored |
| SerExamples.UnhashableMapKey | src/ser.rs:403-409 | a list used as a map key fails with the unhashable-type error naming that list |
| SerExamples.WideInteger | src/ser.rs:144-174 | a `u128` fails with serde's "u128 is not supported" |
| SerExamples.PendingKeyIsReplaced | src/ser.rs:391-397 | two keys in a row: the second replaces the first as the pending key |
| SerExamples.FailedValueConsumesKey | src/ser.rs:399-410 | a value that fails still clears the pending key, so the next value cannot land under it |

## Left out

- `f32`/`f64` (src/ser.rs:176-182): floating point is not modelled. `Serde.Value` has no float constructor.
- The Python runtime is not modelled: the GIL token `py`, reference counting, object allocation and `PyObject` handles. Objects are values (`PyObj`). Aliasing between Python objects does not arise, because each serializer owns the dict or list it fills.
- The length hints passed to `Vec::with_capacity` (src/ser.rs:246-264) are not modelled. They affect only allocation.
- The type `name` is carried in `Serde.Value` but ignored by `Ser.Convert`, as the source ignores `_name`. The variant index is not recorded, because the source ignores `_variant_index`. Only the variant name appears in the output.
- Serde.Value: `Int(width, n)` does not require `n` to lie in the range of its width. A Rust value never produces an out-of-range pair; the model converts any `n` of a width up to 64 bits to `Int(n)`, which for in-range values is what the source does.
- The test harness's JSON rendering through `json.dumps` and `serde_json` (src/ser.rs:468-491) is not modelled. The examples state the Python object that the expected JSON text denotes.
- iroha_client/benches/torii.rs is not part of this model. It is a network benchmark.
- Python key equality is structural equality of `PyObj` values. Python's cross-type equalities (`1 == True`), `__hash__`/`__eq__` overrides and float keys are not modelled.
- Custom `PythonizeTypes` classes are modelled by name only:
  - a custom mapping is assumed to behave like `dict` (insertion-ordered, last write wins, `TypeError` on an unhashable key);
  - a custom sequence class is treated as unhashable, as `list` is;
  - user code in those classes that could raise is not modelled.
- `serialize_i128`/`serialize_u128` are not defined in src/ser.rs. The model follows serde's default methods, which fail with "i128 is not supported" and "u128 is not supported". So not every integer width converts.
- `serialize_entry` is not defined in src/ser.rs. The model follows serde's default, `serialize_key` then `serialize_value` (`Ser.MapSerializer.SerializeEntry`).
- Ser.MapSerializer.SerializeValue: requires a pending key. The source panics in `expect` without one, and a panic is not modelled.
- Ser.Convert: the source's recursion through `Serialize::serialize` of arbitrary user types is modelled by structural recursion over a finite `Serde.Value`. User `Serialize` implementations that call the serializer in other orders are not modelled; the driver methods fix the order serde's derived implementations use.
