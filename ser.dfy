/**
  The serializer of `src/ser.rs`: `Pythonizer` turns a serde value into a tree of
  Python objects, handing every aggregate to a compound serializer that is fed one
  element, field or key/value call at a time and finished with `end`.

  `Convert` states, as a function, what one `value.serialize(Pythonizer)` call
  returns. The classes below are the compound serializers with the state they
  mutate, and `PythonizeCustom` is the conversion as the program runs it: it
  dispatches leaves directly and drives the compound serializers the way serde's
  derived `Serialize` implementations call them. Each method is proved to agree
  with `Convert`.
*/
module Ser {
  import opened Base
  import opened PyObjects
  import Serde

  type Value = Serde.Value

  /** `PythonizeError`: a serde custom error, or a Python exception raised while building the tree. */
  datatype PythonizeError = Custom(msg: string) | Python(cause: PyErr)

  type Res<T> = Result<T, PythonizeError>

  /** The `?` that turns a Python exception into a `PythonizeError`. */
  function Lift<T>(r: Result<T, PyErr>): Res<T> {
    match r
    case Ok(x) => Ok(x)
    case Err(e) => Err(Python(e))
  }

  /**
    `PyDict::new` followed by `set_item(variant, inner)?`, the wrapper every
    non-unit variant gets: on a fresh dict with a string key the call cannot
    fail, so the `?` never returns early and the dict holds that one entry.
  */
  lemma FreshDictSetItem(variant: string, inner: PyObj)
    ensures Lift(SetItemResult([], Str(variant), inner)) == Ok([(Str(variant), inner)])
  {
    assert Insert([], Str(variant), inner) == [(Str(variant), inner)];
  }

  /** One `set_item(key, value?)` step on a mapping: the value's conversion error comes first, then the mapping's own. */
  function StoreValue(entries: seq<Entry>, key: PyObj, converted: Res<PyObj>): (r: Res<seq<Entry>>)
    ensures converted.Err? ==> r == Err(converted.error)
    ensures converted.Ok? && Hashable(key) ==> r == Ok(Insert(entries, key, converted.value))
    ensures converted.Ok? && !Hashable(key) ==> r == Err(Python(UnhashableType(key)))
    ensures r.Ok? ==> Lookup(r.value, key) == Some(converted.value)
    ensures r.Ok? ==> forall k' | k' != key :: Lookup(r.value, k') == Lookup(entries, k')
  {
    var value :- converted;
    Lift(SetItemResult(entries, key, value))
  }

  /** One map entry, `serialize_key(k)` then `serialize_value(v)`: the key's conversion error comes first. */
  function StorePair(p: Adapter, entries: seq<Entry>, kv: (Value, Value)): (r: Res<seq<Entry>>)
    decreases kv
    ensures r.Ok? <==> Convert(p, kv.0).Ok? && Convert(p, kv.1).Ok? && Hashable(Convert(p, kv.0).value)
    ensures r.Ok? ==> r.value == Insert(entries, Convert(p, kv.0).value, Convert(p, kv.1).value)
    ensures r.Ok? ==> Lookup(r.value, Convert(p, kv.0).value) == Some(Convert(p, kv.1).value)
    ensures r.Ok? ==> forall k' | k' != Convert(p, kv.0).value :: Lookup(r.value, k') == Lookup(entries, k')
  {
    match Convert(p, kv.0)
    case Err(e) => Err(e)
    case Ok(key) => StoreValue(entries, key, Convert(p, kv.1))
  }

  /** One `serialize_field(name, v)`: the value stored under the field name as a Python string. */
  function StoreField(p: Adapter, entries: seq<Entry>, field: (string, Value)): (r: Res<seq<Entry>>)
    decreases field
    ensures r.Ok? <==> Convert(p, field.1).Ok?
    ensures r.Ok? ==> r.value == Insert(entries, Str(field.0), Convert(p, field.1).value)
    ensures r.Ok? ==> Lookup(r.value, Str(field.0)) == Some(Convert(p, field.1).value)
    ensures r.Ok? ==> forall k' | k' != Str(field.0) :: Lookup(r.value, k') == Lookup(entries, k')
  {
    StoreValue(entries, Str(field.0), Convert(p, field.1))
  }

  /** The values `Pythonizer` turns into a Python object without serializing anything inside them. */
  predicate IsLeaf(v: Value) {
    v.Bool? || v.Int? || v.Char? || v.Str? || v.Bytes? || v.None? || v.Unit? || v.UnitStruct? || v.UnitVariant?
  }

  /**
    The `serialize_*` methods that build a scalar directly. Only the 128-bit
    integers fail, and no leaf becomes a container.
  */
  function ConvertLeaf(v: Value): (r: Res<PyObj>)
    requires IsLeaf(v)
    ensures r.Err? <==> v.Int? && (v.width == Serde.I128 || v.width == Serde.U128)
    ensures r.Ok? ==> !r.value.List? && !r.value.Tuple? && !r.value.Dict?
  {
    match v
    case Bool(b) => Ok(Bool(b))
    case Int(width, n) =>
      // ser.rs does not override serialize_i128/serialize_u128, so serde's default rejects them
      if width == Serde.I128 then Err(Custom("i128 is not supported"))
      else if width == Serde.U128 then Err(Custom("u128 is not supported"))
      else Ok(Int(n))
    case Char(c) => Ok(Str([c]))
    case Str(s) => Ok(Str(s))
    case Bytes(bs) => Ok(Bytes(bs))
    case None => Ok(Null)
    case Unit => Ok(Null)
    case UnitStruct(_) => Ok(Null)
    case UnitVariant(_, variant) => Ok(Str(variant))
  }

  /** What `value.serialize(Pythonizer)` returns, for the container classes `p`: one case per `serialize_*` method. */
  function Convert(p: Adapter, v: Value): Res<PyObj>
    decreases v
  {
    match v
    case Some(x) => Convert(p, x)
    case NewtypeStruct(_, x) => Convert(p, x)
    case NewtypeVariant(_, variant, x) =>
      var inner :- Convert(p, x);
      Ok(Dict(PyDict, [(Str(variant), inner)]))
    case Seq(xs) =>
      var items :- ConvertItems(p, xs);
      Ok(List(p.listClass, items))
    case Tuple(xs) =>
      var items :- ConvertItems(p, xs);
      Ok(Tuple(items))
    case TupleStruct(_, xs) =>
      var items :- ConvertItems(p, xs);
      Ok(Tuple(items))
    case TupleVariant(_, variant, xs) =>
      var items :- ConvertItems(p, xs);
      Ok(Dict(PyDict, [(Str(variant), Tuple(items))]))
    case Map(kvs) =>
      var entries :- ConvertPairs(p, kvs);
      Ok(Dict(p.mapClass, entries))
    case Struct(_, fields) =>
      var entries :- ConvertFields(p, fields);
      Ok(Dict(p.mapClass, entries))
    case StructVariant(_, variant, fields) =>
      var entries :- ConvertFields(p, fields);
      Ok(Dict(PyDict, [(Str(variant), Dict(p.mapClass, entries))]))
    case _ => ConvertLeaf(v)
  }

  /**
    The items buffer after one `serialize_element` per element, in order: it
    succeeds exactly when every element converts, and then holds each element's
    conversion at the element's position.
  */
  function ConvertItems(p: Adapter, xs: seq<Value>): (r: Res<seq<PyObj>>)
    decreases xs
    ensures r.Ok? <==> forall i | 0 <= i < |xs| :: Convert(p, xs[i]).Ok?
    ensures r.Ok? ==> |r.value| == |xs| && forall i | 0 <= i < |xs| :: Convert(p, xs[i]) == Ok(r.value[i])
  {
    if xs == [] then Ok([])
    else
      var last := |xs| - 1;
      var init :- ConvertItems(p, xs[..last]);
      var item :- Convert(p, xs[last]);
      Ok(init + [item])
  }

  /**
    The mapping after `serialize_key`/`serialize_value` for every pair, in
    order: on success it is a valid Python mapping with at most one entry per pair.
  */
  function ConvertPairs(p: Adapter, kvs: seq<(Value, Value)>): (r: Res<seq<Entry>>)
    decreases kvs
    ensures r.Ok? ==> KeysDistinct(r.value) && KeysHashable(r.value) && |r.value| <= |kvs|
  {
    if kvs == [] then Ok([])
    else
      var last := |kvs| - 1;
      var prefix :- ConvertPairs(p, kvs[..last]);
      StorePair(p, prefix, kvs[last])
  }

  /**
    The mapping after `serialize_field(name, value)` for every field, in order:
    on success it is a valid Python mapping whose keys are all strings.
  */
  function ConvertFields(p: Adapter, fields: seq<(string, Value)>): (r: Res<seq<Entry>>)
    decreases fields
    ensures r.Ok? ==> KeysDistinct(r.value) && KeysHashable(r.value)
    ensures r.Ok? ==> forall i | 0 <= i < |r.value| :: r.value[i].0.Str?
  {
    if fields == [] then Ok([])
    else
      var last := |fields| - 1;
      var prefix :- ConvertFields(p, fields[..last]);
      StoreField(p, prefix, fields[last])
  }

  /**
    `PythonCollectionSerializer`: the `items` buffer shared by sequences, tuples
    and tuple structs.
  */
  class CollectionSerializer {
    const adapter: Adapter
    var items: seq<PyObj>

    /** `serialize_seq`, `serialize_tuple`, `serialize_tuple_struct`: an empty buffer. */
    constructor (adapter: Adapter)
      ensures this.adapter == adapter && items == []
    {
      this.adapter := adapter;
      items := [];
    }

    /** `serialize_element`: appends the element's conversion, or fails with its error and appends nothing. */
    method SerializeElement(x: Value) returns (r: Outcome<PythonizeError>)
      modifies this
      decreases x, 2
      ensures r.Pass? <==> Convert(adapter, x).Ok?
      ensures r.Fail? ==> r.error == Convert(adapter, x).error
      ensures items == if r.Pass? then old(items) + [Convert(adapter, x).value] else old(items)
    {
      var item := PythonizeCustom(adapter, x);
      if item.Err? {
        return Fail(item.error);
      }
      items := items + [item.value];
      r := Pass;
    }

    /** `SerializeSeq::end`: the items, in call order, in the adapter's sequence class. */
    method EndSeq() returns (r: Res<PyObj>)
      ensures r.Ok? && r.value.List?
      ensures r.value.listClass == adapter.listClass && r.value.items == items
    {
      r := Ok(List(adapter.listClass, items));
    }

    /** `SerializeTuple::end` and `SerializeTupleStruct::end`: the items, in call order, in a Python tuple. */
    method EndTuple() returns (r: Res<PyObj>)
      ensures r.Ok? && r.value.Tuple? && r.value.items == items
    {
      r := Ok(Tuple(items));
    }
  }

  /** `PythonTupleVariantSerializer`: a collection serializer plus the variant name. */
  class TupleVariantSerializer {
    const variant: string
    const inner: CollectionSerializer

    /** `serialize_tuple_variant`. */
    constructor (adapter: Adapter, variant: string)
      ensures this.variant == variant && fresh(inner)
      ensures inner.adapter == adapter && inner.items == []
    {
      this.variant := variant;
      inner := new CollectionSerializer(adapter);
    }

    /** `serialize_field`: exactly the inner collection's `serialize_element`. */
    method SerializeField(x: Value) returns (r: Outcome<PythonizeError>)
      modifies inner
      decreases x, 3
      ensures r.Pass? <==> Convert(inner.adapter, x).Ok?
      ensures r.Fail? ==> r.error == Convert(inner.adapter, x).error
      ensures inner.items == if r.Pass? then old(inner.items) + [Convert(inner.adapter, x).value] else old(inner.items)
    {
      r := inner.SerializeElement(x);
    }

    /** `end`: a fresh `dict` whose one entry maps the variant name to the items as a tuple. */
    method End() returns (r: Res<PyObj>)
      ensures r == Ok(Dict(PyDict, [(Str(variant), Tuple(inner.items))]))
    {
      var d := new PyMapping(PyDict);
      var tuple := inner.EndTuple();
      match tuple {
        case Err(e) =>
          r := Err(e);
        case Ok(t) =>
          FreshDictSetItem(variant, t);
          var stored := d.SetItem(Str(variant), t);
          match stored {
            case Fail(e) => r := Err(Python(e));
            case Pass => r := Ok(d.Object());
          }
      }
    }
  }

  /** `PythonMapSerializer`: the target mapping and the pending-key slot. */
  class MapSerializer {
    const adapter: Adapter
    const mapping: PyMapping
    var key: Option<PyObj>

    /** `serialize_map`: a fresh empty mapping of the adapter's class and no pending key. */
    constructor (adapter: Adapter)
      ensures this.adapter == adapter && fresh(mapping)
      ensures mapping.mapClass == adapter.mapClass && mapping.entries == [] && mapping.Valid()
      ensures key == None
    {
      this.adapter := adapter;
      mapping := new PyMapping(adapter.mapClass);
      key := None;
    }

    /**
      `serialize_key`: the key's conversion becomes the pending key, replacing
      any earlier one unchecked; on failure the pending key stays as it was.
    */
    method SerializeKey(k: Value) returns (r: Outcome<PythonizeError>)
      modifies this
      decreases k, 2
      ensures r.Pass? <==> Convert(adapter, k).Ok?
      ensures r.Fail? ==> r.error == Convert(adapter, k).error
      ensures key == if r.Pass? then Some(Convert(adapter, k).value) else old(key)
    {
      var converted := PythonizeCustom(adapter, k);
      if converted.Err? {
        return Fail(converted.error);
      }
      key := Some(converted.value);
      r := Pass;
    }

    /**
      `serialize_value`: takes the pending key (the source panics when there is
      none), then stores the value's conversion under it. Afterwards no key is
      pending, whether or not the step failed, and a failed step leaves the
      mapping unchanged.
    */
    method SerializeValue(v: Value) returns (r: Outcome<PythonizeError>)
      requires key.Some?
      requires mapping.Valid()
      modifies this, mapping
      decreases v, 2
      ensures key == None && mapping.Valid()
      ensures StoreValue(old(mapping.entries), old(key).value, Convert(adapter, v))
              == if r.Pass? then Ok(mapping.entries) else Err(r.error)
      ensures r.Fail? ==> mapping.entries == old(mapping.entries)
    {
      var k := key.value;
      key := None;
      var converted := PythonizeCustom(adapter, v);
      if converted.Err? {
        return Fail(converted.error);
      }
      var stored := mapping.SetItem(k, converted.value);
      match stored {
        case Fail(e) => r := Fail(Python(e));
        case Pass => r := Pass;
      }
    }

    /**
      `serialize_entry`, which `src/ser.rs` leaves to serde's default:
      `serialize_key` then `serialize_value`. It stores the pair exactly as
      `StorePair` says, leaves no key pending and, on failure, the mapping as it was.
    */
    method SerializeEntry(kv: (Value, Value)) returns (r: Outcome<PythonizeError>)
      requires key == None && mapping.Valid()
      modifies this, mapping
      decreases kv, 3
      ensures key == None && mapping.Valid()
      ensures StorePair(adapter, old(mapping.entries), kv)
              == if r.Pass? then Ok(mapping.entries) else Err(r.error)
      ensures r.Fail? ==> mapping.entries == old(mapping.entries)
    {
      r := SerializeKey(kv.0);
      if r.Fail? {
        return;
      }
      r := SerializeValue(kv.1);
    }

    /** `end`: the target mapping itself. */
    method End() returns (r: Res<PyObj>)
      ensures r == Ok(Dict(mapping.mapClass, mapping.entries))
    {
      r := Ok(mapping.Object());
    }
  }

  /** `PythonDictSerializer`: the target mapping of a struct. */
  class DictSerializer {
    const adapter: Adapter
    const dict: PyMapping

    /** `serialize_struct`: a fresh empty mapping of the adapter's class. */
    constructor (adapter: Adapter)
      ensures this.adapter == adapter && fresh(dict)
      ensures dict.mapClass == adapter.mapClass && dict.entries == [] && dict.Valid()
    {
      this.adapter := adapter;
      dict := new PyMapping(adapter.mapClass);
    }

    /** `serialize_field`: stores the value's conversion under the field name; a failed step changes nothing. */
    method SerializeField(name: string, v: Value) returns (r: Outcome<PythonizeError>)
      requires dict.Valid()
      modifies dict
      decreases v, 2
      ensures dict.Valid()
      ensures StoreValue(old(dict.entries), Str(name), Convert(adapter, v))
              == if r.Pass? then Ok(dict.entries) else Err(r.error)
      ensures r.Fail? ==> dict.entries == old(dict.entries)
    {
      var converted := PythonizeCustom(adapter, v);
      if converted.Err? {
        return Fail(converted.error);
      }
      var stored := dict.SetItem(Str(name), converted.value);
      match stored {
        case Fail(e) => r := Fail(Python(e));
        case Pass => r := Pass;
      }
    }

    /** `end`: the target mapping itself. */
    method End() returns (r: Res<PyObj>)
      ensures r == Ok(Dict(dict.mapClass, dict.entries))
    {
      r := Ok(dict.Object());
    }
  }

  /** `PythonStructVariantSerializer`: a dict serializer plus the variant name. */
  class StructVariantSerializer {
    const variant: string
    const inner: DictSerializer

    /** `serialize_struct_variant`: the inner mapping is of the adapter's class. */
    constructor (adapter: Adapter, variant: string)
      ensures this.variant == variant && fresh(inner) && fresh(inner.dict)
      ensures inner.adapter == adapter && inner.dict.mapClass == adapter.mapClass
      ensures inner.dict.entries == [] && inner.dict.Valid()
    {
      this.variant := variant;
      inner := new DictSerializer(adapter);
    }

    /** `serialize_field`: converts the value and sets it on the inner mapping directly. */
    method SerializeField(name: string, v: Value) returns (r: Outcome<PythonizeError>)
      requires inner.dict.Valid()
      modifies inner.dict
      decreases v, 2
      ensures inner.dict.Valid()
      ensures StoreValue(old(inner.dict.entries), Str(name), Convert(inner.adapter, v))
              == if r.Pass? then Ok(inner.dict.entries) else Err(r.error)
      ensures r.Fail? ==> inner.dict.entries == old(inner.dict.entries)
    {
      var converted := PythonizeCustom(inner.adapter, v);
      if converted.Err? {
        return Fail(converted.error);
      }
      var stored := inner.dict.SetItem(Str(name), converted.value);
      match stored {
        case Fail(e) => r := Fail(Python(e));
        case Pass => r := Pass;
      }
    }

    /** `end`: a fresh `dict` whose one entry maps the variant name to the inner mapping. */
    method End() returns (r: Res<PyObj>)
      ensures r == Ok(Dict(PyDict, [(Str(variant), Dict(inner.dict.mapClass, inner.dict.entries))]))
    {
      var d := new PyMapping(PyDict);
      FreshDictSetItem(variant, inner.dict.Object());
      var stored := d.SetItem(Str(variant), inner.dict.Object());
      match stored {
        case Fail(e) => r := Err(Python(e));
        case Pass => r := Ok(d.Object());
      }
    }
  }

  /** One more element: the items of `xs[..i + 1]` extend those of `xs[..i]` by the conversion of `xs[i]`. */
  lemma ItemsStep(p: Adapter, xs: seq<Value>, i: nat)
    requires i < |xs|
    ensures ConvertItems(p, xs[..i]).Err? ==> ConvertItems(p, xs[..i + 1]) == ConvertItems(p, xs[..i])
    ensures ConvertItems(p, xs[..i]).Ok? && Convert(p, xs[i]).Err? ==> ConvertItems(p, xs[..i + 1]) == Err(Convert(p, xs[i]).error)
    ensures ConvertItems(p, xs[..i]).Ok? && Convert(p, xs[i]).Ok?
            ==> ConvertItems(p, xs[..i + 1]) == Ok(ConvertItems(p, xs[..i]).value + [Convert(p, xs[i]).value])
  {
    assert xs[..i + 1][..i] == xs[..i];
  }

  /** One more pair: the mapping of `kvs[..i + 1]` is that of `kvs[..i]` with `kvs[i]` stored. */
  lemma PairsStep(p: Adapter, kvs: seq<(Value, Value)>, i: nat)
    requires i < |kvs|
    ensures ConvertPairs(p, kvs[..i]).Err? ==> ConvertPairs(p, kvs[..i + 1]) == ConvertPairs(p, kvs[..i])
    ensures ConvertPairs(p, kvs[..i]).Ok? ==> ConvertPairs(p, kvs[..i + 1]) == StorePair(p, ConvertPairs(p, kvs[..i]).value, kvs[i])
  {
    assert kvs[..i + 1][..i] == kvs[..i];
  }

  /** One more field: the mapping of `fields[..i + 1]` is that of `fields[..i]` with `fields[i]` stored. */
  lemma FieldsStep(p: Adapter, fields: seq<(string, Value)>, i: nat)
    requires i < |fields|
    ensures ConvertFields(p, fields[..i]).Err? ==> ConvertFields(p, fields[..i + 1]) == ConvertFields(p, fields[..i])
    ensures ConvertFields(p, fields[..i]).Ok? ==> ConvertFields(p, fields[..i + 1]) == StoreField(p, ConvertFields(p, fields[..i]).value, fields[i])
  {
    assert fields[..i + 1][..i] == fields[..i];
  }

  /** Once the items of a prefix fail, the items of the whole sequence fail the same way. */
  lemma {:induction false} ItemsFailFrom(p: Adapter, xs: seq<Value>, n: nat)
    requires n <= |xs|
    ensures ConvertItems(p, xs[..n]).Err? ==> ConvertItems(p, xs) == ConvertItems(p, xs[..n])
    decreases |xs| - n
  {
    if n < |xs| {
      assert xs[..n + 1][..n] == xs[..n];
      ItemsFailFrom(p, xs, n + 1);
    } else {
      assert xs[..n] == xs;
    }
  }

  /** Once the mapping of a prefix of pairs fails, the mapping of all pairs fails the same way. */
  lemma {:induction false} PairsFailFrom(p: Adapter, kvs: seq<(Value, Value)>, n: nat)
    requires n <= |kvs|
    ensures ConvertPairs(p, kvs[..n]).Err? ==> ConvertPairs(p, kvs) == ConvertPairs(p, kvs[..n])
    decreases |kvs| - n
  {
    if n < |kvs| {
      assert kvs[..n + 1][..n] == kvs[..n];
      PairsFailFrom(p, kvs, n + 1);
    } else {
      assert kvs[..n] == kvs;
    }
  }

  /** Once the mapping of a prefix of fields fails, the mapping of all fields fails the same way. */
  lemma {:induction false} FieldsFailFrom(p: Adapter, fields: seq<(string, Value)>, n: nat)
    requires n <= |fields|
    ensures ConvertFields(p, fields[..n]).Err? ==> ConvertFields(p, fields) == ConvertFields(p, fields[..n])
    decreases |fields| - n
  {
    if n < |fields| {
      assert fields[..n + 1][..n] == fields[..n];
      FieldsFailFrom(p, fields, n + 1);
    } else {
      assert fields[..n] == fields;
    }
  }

  /**
    `pythonize_custom::<P, _>(py, value)`: `value.serialize(Pythonizer)`. Leaves
    are built directly; aggregates go through their compound serializer.
  */
  method PythonizeCustom(p: Adapter, v: Value) returns (r: Res<PyObj>)
    decreases v, 1
    ensures r == Convert(p, v)
  {
    match v {
      case Some(x) => r := PythonizeCustom(p, x);
      case NewtypeStruct(_, x) => r := PythonizeCustom(p, x);
      case NewtypeVariant(_, variant, x) =>
        var inner := PythonizeCustom(p, x);
        if inner.Err? {
          return Err(inner.error);
        }
        var d := new PyMapping(PyDict);
        FreshDictSetItem(variant, inner.value);
        var stored := d.SetItem(Str(variant), inner.value);
        match stored {
          case Fail(e) => r := Err(Python(e));
          case Pass => r := Ok(d.Object());
        }
      case Seq(_) => r := SerializeCollection(p, v);
      case Tuple(_) => r := SerializeCollection(p, v);
      case TupleStruct(_, _) => r := SerializeCollection(p, v);
      case TupleVariant(_, _, _) => r := SerializeTupleVariant(p, v);
      case Map(_) => r := SerializeMap(p, v);
      case Struct(_, _) => r := SerializeStruct(p, v);
      case StructVariant(_, _, _) => r := SerializeStructVariant(p, v);
      case _ => r := ConvertLeaf(v);
    }
  }

  /** A sequence, tuple or tuple struct: one `serialize_element` per element, in order, then `end`. */
  method SerializeCollection(p: Adapter, v: Value) returns (r: Res<PyObj>)
    requires v.Seq? || v.Tuple? || v.TupleStruct?
    decreases v, 0
    ensures r == Convert(p, v)
  {
    var xs := v.elems;
    var s := new CollectionSerializer(p);
    var i := 0;
    while i < |xs|
      invariant 0 <= i <= |xs|
      invariant ConvertItems(p, xs[..i]) == Ok(s.items)
    {
      ItemsStep(p, xs, i);
      var done := s.SerializeElement(xs[i]);
      if done.Fail? {
        ItemsFailFrom(p, xs, i + 1);
        CollectionResult(p, v);
        return Err(done.error);
      }
      i := i + 1;
    }
    assert xs[..i] == xs;
    CollectionResult(p, v);
    if v.Seq? {
      r := s.EndSeq();
    } else {
      r := s.EndTuple();
    }
  }

  /** A sequence is its items in the adapter's class, a tuple or tuple struct its items in a tuple. */
  lemma CollectionResult(p: Adapter, v: Value)
    requires v.Seq? || v.Tuple? || v.TupleStruct?
    ensures ConvertItems(p, v.elems).Err? ==> Convert(p, v) == Err(ConvertItems(p, v.elems).error)
    ensures ConvertItems(p, v.elems).Ok? && v.Seq? ==> Convert(p, v) == Ok(List(p.listClass, ConvertItems(p, v.elems).value))
    ensures ConvertItems(p, v.elems).Ok? && !v.Seq? ==> Convert(p, v) == Ok(Tuple(ConvertItems(p, v.elems).value))
  {
    var r := ConvertItems(p, v.elems);
    match v
    case Seq(xs) =>
      assert Convert(p, Serde.Seq(xs)) == if r.Err? then Err(r.error) else Ok(List(p.listClass, r.value));
    case Tuple(xs) =>
      assert Convert(p, Serde.Tuple(xs)) == if r.Err? then Err(r.error) else Ok(Tuple(r.value));
    case TupleStruct(name, xs) =>
      assert Convert(p, Serde.TupleStruct(name, xs)) == if r.Err? then Err(r.error) else Ok(Tuple(r.value));
  }

  /** A tuple variant: one `serialize_field` per element, in order, then `end`. */
  method SerializeTupleVariant(p: Adapter, v: Value) returns (r: Res<PyObj>)
    requires v.TupleVariant?
    decreases v, 0
    ensures r == Convert(p, v)
  {
    var xs := v.elems;
    var s := new TupleVariantSerializer(p, v.variant);
    var i := 0;
    while i < |xs|
      invariant 0 <= i <= |xs|
      invariant ConvertItems(p, xs[..i]) == Ok(s.inner.items)
    {
      ItemsStep(p, xs, i);
      var done := s.SerializeField(xs[i]);
      if done.Fail? {
        ItemsFailFrom(p, xs, i + 1);
        TupleVariantResult(p, v.name, v.variant, v.elems);
        return Err(done.error);
      }
      i := i + 1;
    }
    assert xs[..i] == xs;
    TupleVariantResult(p, v.name, v.variant, v.elems);
    r := s.End();
  }

  /** A tuple variant is the one-entry `dict` mapping its name to its items as a tuple. */
  lemma TupleVariantResult(p: Adapter, name: string, variant: string, xs: seq<Value>)
    ensures ConvertItems(p, xs).Err? ==> Convert(p, Serde.TupleVariant(name, variant, xs)) == Err(ConvertItems(p, xs).error)
    ensures ConvertItems(p, xs).Ok?
            ==> Convert(p, Serde.TupleVariant(name, variant, xs)) == Ok(Dict(PyDict, [(Str(variant), Tuple(ConvertItems(p, xs).value))]))
  {
    var r := ConvertItems(p, xs);
    assert Convert(p, Serde.TupleVariant(name, variant, xs))
        == if r.Err? then Err(r.error) else Ok(Dict(PyDict, [(Str(variant), Tuple(r.value))]));
  }

  /** A map: `serialize_key` then `serialize_value` for each pair, in order, then `end`. */
  method SerializeMap(p: Adapter, v: Value) returns (r: Res<PyObj>)
    requires v.Map?
    decreases v, 0
    ensures r == Convert(p, v)
  {
    var kvs := v.entries;
    var m := new MapSerializer(p);
    var i := 0;
    while i < |kvs|
      invariant 0 <= i <= |kvs|
      invariant m.key == None && m.mapping.Valid()
      invariant ConvertPairs(p, kvs[..i]) == Ok(m.mapping.entries)
    {
      PairsStep(p, kvs, i);
      var done := m.SerializeEntry(kvs[i]);
      if done.Fail? {
        PairsFailFrom(p, kvs, i + 1);
        MapResult(p, v.entries);
        return Err(done.error);
      }
      i := i + 1;
    }
    assert kvs[..i] == kvs;
    MapResult(p, v.entries);
    r := m.End();
  }

  /** A map is its stored pairs in the adapter's mapping class. */
  lemma MapResult(p: Adapter, kvs: seq<(Value, Value)>)
    ensures ConvertPairs(p, kvs).Err? ==> Convert(p, Serde.Map(kvs)) == Err(ConvertPairs(p, kvs).error)
    ensures ConvertPairs(p, kvs).Ok? ==> Convert(p, Serde.Map(kvs)) == Ok(Dict(p.mapClass, ConvertPairs(p, kvs).value))
  {
    var r := ConvertPairs(p, kvs);
    assert Convert(p, Serde.Map(kvs)) == if r.Err? then Err(r.error) else Ok(Dict(p.mapClass, r.value));
  }

  /** A struct: one `serialize_field` per field, in declaration order, then `end`. */
  method SerializeStruct(p: Adapter, v: Value) returns (r: Res<PyObj>)
    requires v.Struct?
    decreases v, 0
    ensures r == Convert(p, v)
  {
    var fields := v.fields;
    var s := new DictSerializer(p);
    var i := 0;
    while i < |fields|
      invariant 0 <= i <= |fields|
      invariant s.dict.Valid()
      invariant ConvertFields(p, fields[..i]) == Ok(s.dict.entries)
    {
      FieldsStep(p, fields, i);
      var done := s.SerializeField(fields[i].0, fields[i].1);
      if done.Fail? {
        FieldsFailFrom(p, fields, i + 1);
        StructResult(p, v.name, v.fields);
        return Err(done.error);
      }
      i := i + 1;
    }
    assert fields[..i] == fields;
    StructResult(p, v.name, v.fields);
    r := s.End();
  }

  /** A struct variant: one `serialize_field` per field, in declaration order, then `end`. */
  method SerializeStructVariant(p: Adapter, v: Value) returns (r: Res<PyObj>)
    requires v.StructVariant?
    decreases v, 0
    ensures r == Convert(p, v)
  {
    var fields := v.fields;
    var s := new StructVariantSerializer(p, v.variant);
    var i := 0;
    while i < |fields|
      invariant 0 <= i <= |fields|
      invariant s.inner.dict.Valid()
      invariant ConvertFields(p, fields[..i]) == Ok(s.inner.dict.entries)
    {
      FieldsStep(p, fields, i);
      var done := s.SerializeField(fields[i].0, fields[i].1);
      if done.Fail? {
        FieldsFailFrom(p, fields, i + 1);
        StructVariantResult(p, v.name, v.variant, v.fields);
        return Err(done.error);
      }
      i := i + 1;
    }
    assert fields[..i] == fields;
    StructVariantResult(p, v.name, v.variant, v.fields);
    r := s.End();
  }

  /** A struct is its fields' mapping in the adapter's class. */
  lemma StructResult(p: Adapter, name: string, fields: seq<(string, Value)>)
    ensures ConvertFields(p, fields).Err? ==> Convert(p, Serde.Struct(name, fields)) == Err(ConvertFields(p, fields).error)
    ensures ConvertFields(p, fields).Ok? ==> Convert(p, Serde.Struct(name, fields)) == Ok(Dict(p.mapClass, ConvertFields(p, fields).value))
  {
    var r := ConvertFields(p, fields);
    assert Convert(p, Serde.Struct(name, fields)) == if r.Err? then Err(r.error) else Ok(Dict(p.mapClass, r.value));
  }

  /** A struct variant is the one-entry `dict` mapping its name to its fields' mapping. */
  lemma StructVariantResult(p: Adapter, name: string, variant: string, fields: seq<(string, Value)>)
    ensures ConvertFields(p, fields).Err? ==> Convert(p, Serde.StructVariant(name, variant, fields)) == Err(ConvertFields(p, fields).error)
    ensures ConvertFields(p, fields).Ok?
            ==> Convert(p, Serde.StructVariant(name, variant, fields)) == Ok(Dict(PyDict, [(Str(variant), Dict(p.mapClass, ConvertFields(p, fields).value))]))
  {
    var r := ConvertFields(p, fields);
    assert Convert(p, Serde.StructVariant(name, variant, fields))
        == if r.Err? then Err(r.error) else Ok(Dict(PyDict, [(Str(variant), Dict(p.mapClass, r.value))]));
  }

  /** `pythonize(py, value)`: the conversion bound to native `dict` and `list`. */
  method Pythonize(v: Value) returns (r: Res<PyObj>)
    ensures r == Convert(DefaultAdapter, v)
  {
    r := PythonizeCustom(DefaultAdapter, v);
  }
}
