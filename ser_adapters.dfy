/**
  What the container classes of a `PythonizeTypes` adapter decide, and what they
  do not: the adapter picks the class of each mapping and sequence the
  serializer creates, but never the tree's shape, its order, its keys or its
  errors. Forgetting every class (`Erase`) turns the output of any adapter into
  the output of the default one.
*/
module SerAdapters {
  import opened Base
  import opened PyObjects
  import opened Ser
  import Serde

  /** The tree with every mapping made a native `dict` and every sequence a native `list`. */
  function Erase(o: PyObj): PyObj
    decreases o
  {
    match o
    case List(_, items) => List(PyList, EraseItems(items))
    case Tuple(items) => Tuple(EraseItems(items))
    case Dict(_, entries) => Dict(PyDict, EraseEntries(entries))
    case _ => o
  }

  function EraseItems(items: seq<PyObj>): (r: seq<PyObj>)
    decreases items
    ensures |r| == |items|
    ensures forall i | 0 <= i < |items| :: r[i] == Erase(items[i])
  {
    seq(|items|, i requires 0 <= i < |items| => Erase(items[i]))
  }

  function EraseEntry(e: Entry): Entry
    decreases e
  {
    (Erase(e.0), Erase(e.1))
  }

  function EraseEntries(entries: seq<Entry>): (r: seq<Entry>)
    decreases entries
    ensures |r| == |entries|
    ensures forall i | 0 <= i < |entries| :: r[i] == EraseEntry(entries[i])
  {
    seq(|entries|, i requires 0 <= i < |entries| => EraseEntry(entries[i]))
  }

  function EraseError(e: PythonizeError): PythonizeError {
    match e
    case Custom(msg) => Custom(msg)
    case Python(UnhashableType(key)) => Python(UnhashableType(Erase(key)))
  }

  function EraseResult(r: Res<PyObj>): Res<PyObj> {
    match r
    case Ok(o) => Ok(Erase(o))
    case Err(e) => Err(EraseError(e))
  }

  function EraseItemsResult(r: Res<seq<PyObj>>): Res<seq<PyObj>> {
    match r
    case Ok(items) => Ok(EraseItems(items))
    case Err(e) => Err(EraseError(e))
  }

  function EraseEntriesResult(r: Res<seq<Entry>>): Res<seq<Entry>> {
    match r
    case Ok(entries) => Ok(EraseEntries(entries))
    case Err(e) => Err(EraseError(e))
  }

  /** Classes do not affect hashing, and a hashable object holds no container whose class could be forgotten. */
  lemma {:induction false} EraseKeepsHashable(o: PyObj)
    ensures Hashable(Erase(o)) == Hashable(o)
    ensures Hashable(o) ==> Erase(o) == o
    decreases o
  {
    match o
    case Tuple(items) =>
      forall i | 0 <= i < |items|
        ensures Hashable(Erase(items[i])) == Hashable(items[i])
        ensures Hashable(items[i]) ==> Erase(items[i]) == items[i]
      {
        EraseKeepsHashable(items[i]);
      }
      if Hashable(o) {
        assert EraseItems(items) == items;
      }
    case _ =>
  }

  /** Storing a hashable key into a mapping with hashable keys commutes with forgetting the classes. */
  lemma EraseInsert(entries: seq<Entry>, k: PyObj, v: PyObj)
    requires KeysHashable(entries) && Hashable(k)
    ensures EraseEntries(Insert(entries, k, v)) == Insert(EraseEntries(entries), k, Erase(v))
  {
    var erased := EraseEntries(entries);
    forall i | 0 <= i < |entries| ensures erased[i].0 == entries[i].0 {
      EraseKeepsHashable(entries[i].0);
    }
    FindKeySameKeys(erased, entries, k);
    match FindKey(entries, k)
    case Some(i) =>
      assert EraseEntries(entries[i := (entries[i].0, v)]) == erased[i := (erased[i].0, Erase(v))];
    case None =>
      EraseKeepsHashable(k);
      assert EraseEntries(entries + [(k, v)]) == erased + [(k, Erase(v))];
  }

  /**
    The adapter only picks classes: converting with any adapter and then
    forgetting the classes gives exactly the default conversion, errors included.
  */
  lemma AdapterOnlyPicksClasses(p: Adapter, v: Value)
    ensures EraseResult(Convert(p, v)) == Convert(DefaultAdapter, v)
    decreases v, 1
  {
    if v.Some? || v.NewtypeStruct? || v.NewtypeVariant? {
      WrappersOnlyPickClasses(p, v);
    } else if v.Seq? || v.Tuple? || v.TupleStruct? || v.TupleVariant? {
      CollectionsOnlyPickClasses(p, v);
    } else if v.Map? || v.Struct? || v.StructVariant? {
      MappingsOnlyPickClasses(p, v);
    } else {
      LeavesHaveNoClass(p, v);
    }
  }

  lemma LeavesHaveNoClass(p: Adapter, v: Value)
    requires !(v.Some? || v.NewtypeStruct? || v.NewtypeVariant?)
    requires !(v.Seq? || v.Tuple? || v.TupleStruct? || v.TupleVariant?)
    requires !(v.Map? || v.Struct? || v.StructVariant?)
    ensures EraseResult(Convert(p, v)) == Convert(DefaultAdapter, v)
  {
  }

  lemma {:induction false} WrappersOnlyPickClasses(p: Adapter, v: Value)
    requires v.Some? || v.NewtypeStruct? || v.NewtypeVariant?
    ensures EraseResult(Convert(p, v)) == Convert(DefaultAdapter, v)
    decreases v, 0
  {
    match v
    case Some(x) => AdapterOnlyPicksClasses(p, x);
    case NewtypeStruct(_, x) => AdapterOnlyPicksClasses(p, x);
    case NewtypeVariant(_, variant, x) =>
      AdapterOnlyPicksClasses(p, x);
      if Convert(p, x).Ok? {
        EraseWrap(variant, Convert(p, x).value);
      }
  }

  lemma {:induction false} CollectionsOnlyPickClasses(p: Adapter, v: Value)
    requires v.Seq? || v.Tuple? || v.TupleStruct? || v.TupleVariant?
    ensures EraseResult(Convert(p, v)) == Convert(DefaultAdapter, v)
    decreases v, 0
  {
    ItemsOnlyPickClasses(p, v.elems);
    if v.TupleVariant? {
      TupleVariantResult(p, v.name, v.variant, v.elems);
      TupleVariantResult(DefaultAdapter, v.name, v.variant, v.elems);
      if ConvertItems(p, v.elems).Ok? {
        EraseWrap(v.variant, Tuple(ConvertItems(p, v.elems).value));
      }
    } else {
      CollectionResult(p, v);
      CollectionResult(DefaultAdapter, v);
    }
  }

  lemma {:induction false} MappingsOnlyPickClasses(p: Adapter, v: Value)
    requires v.Map? || v.Struct? || v.StructVariant?
    ensures EraseResult(Convert(p, v)) == Convert(DefaultAdapter, v)
    decreases v, 0
  {
    if v.Map? {
      PairsOnlyPickClasses(p, v.entries);
      MapResult(p, v.entries);
      MapResult(DefaultAdapter, v.entries);
    } else {
      FieldsOnlyPickClasses(p, v.fields);
      if v.Struct? {
        StructResult(p, v.name, v.fields);
        StructResult(DefaultAdapter, v.name, v.fields);
      } else {
        StructVariantResult(p, v.name, v.variant, v.fields);
        StructVariantResult(DefaultAdapter, v.name, v.variant, v.fields);
        if ConvertFields(p, v.fields).Ok? {
          EraseWrap(v.variant, Dict(p.mapClass, ConvertFields(p, v.fields).value));
        }
      }
    }
  }

  lemma EraseWrap(variant: string, o: PyObj)
    ensures Erase(Dict(PyDict, [(Str(variant), o)])) == Dict(PyDict, [(Str(variant), Erase(o))])
  {
    assert Erase(Str(variant)) == Str(variant);
    assert EraseEntries([(Str(variant), o)])[0] == (Str(variant), Erase(o));
  }

  lemma {:induction false} ItemsOnlyPickClasses(p: Adapter, xs: seq<Value>)
    ensures EraseItemsResult(ConvertItems(p, xs)) == ConvertItems(DefaultAdapter, xs)
    decreases xs
  {
    if xs != [] {
      var n := |xs| - 1;
      ItemsOnlyPickClasses(p, xs[..n]);
      AdapterOnlyPicksClasses(p, xs[n]);
      var r := ConvertItems(p, xs[..n]);
      var c := Convert(p, xs[n]);
      if r.Ok? && c.Ok? {
        assert EraseItems(r.value + [c.value]) == EraseItems(r.value) + [Erase(c.value)];
      }
    }
  }

  lemma {:induction false} PairsOnlyPickClasses(p: Adapter, kvs: seq<(Value, Value)>)
    ensures EraseEntriesResult(ConvertPairs(p, kvs)) == ConvertPairs(DefaultAdapter, kvs)
    decreases kvs
  {
    if kvs != [] {
      var n := |kvs| - 1;
      PairsOnlyPickClasses(p, kvs[..n]);
      var kv := kvs[n];
      assert kv.0 < kv && kv.1 < kv;
      AdapterOnlyPicksClasses(p, kv.0);
      AdapterOnlyPicksClasses(p, kv.1);
      var prefix := ConvertPairs(p, kvs[..n]);
      var key := Convert(p, kv.0);
      var value := Convert(p, kv.1);
      if prefix.Ok? && key.Ok? && value.Ok? {
        EraseKeepsHashable(key.value);
        if Hashable(key.value) {
          EraseInsert(prefix.value, key.value, value.value);
        }
      }
    }
  }

  lemma {:induction false} FieldsOnlyPickClasses(p: Adapter, fields: seq<(string, Value)>)
    ensures EraseEntriesResult(ConvertFields(p, fields)) == ConvertFields(DefaultAdapter, fields)
    decreases fields
  {
    if fields != [] {
      var n := |fields| - 1;
      FieldsOnlyPickClasses(p, fields[..n]);
      var field := fields[n];
      assert field.1 < field;
      AdapterOnlyPicksClasses(p, field.1);
      var prefix := ConvertFields(p, fields[..n]);
      var value := Convert(p, field.1);
      if prefix.Ok? && value.Ok? {
        EraseInsert(prefix.value, Str(field.0), value.value);
      }
    }
  }

  /** Any two adapters build trees that differ in container classes only. */
  lemma SameShapeForEveryAdapter(p: Adapter, q: Adapter, v: Value)
    ensures EraseResult(Convert(p, v)) == EraseResult(Convert(q, v))
  {
    AdapterOnlyPicksClasses(p, v);
    AdapterOnlyPicksClasses(q, v);
  }

  /** `pythonize` builds native containers only: forgetting classes changes nothing in its output. */
  lemma DefaultIsNative(v: Value)
    ensures EraseResult(Convert(DefaultAdapter, v)) == Convert(DefaultAdapter, v)
  {
    AdapterOnlyPicksClasses(DefaultAdapter, v);
  }
}
