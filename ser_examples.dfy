/**
  The unit tests of `src/ser.rs`, each as the value serde's derived `Serialize`
  feeds the serializer and the Python object `pythonize` returns for it (the
  tests compare its JSON rendering; here the object itself is stated), plus a
  few behaviours of the map serializer the tests do not reach.
*/
module SerExamples {
  import opened Base
  import opened PyObjects
  import opened Ser
  import Serde
  import SerProperties

  /** `struct Empty;` renders as `null`. */
  lemma EmptyStruct()
    ensures Convert(DefaultAdapter, Serde.UnitStruct("Empty")) == Ok(Null)
  {
  }

  /** `Struct { foo: "foo", bar: 5 }` renders as `{"foo":"foo","bar":5}`: fields in declaration order. */
  lemma PlainStruct()
    ensures Convert(DefaultAdapter, Serde.Struct("Struct", [("foo", Serde.Str("foo")), ("bar", Serde.Int(Serde.U64, 5))]))
         == Ok(Dict(PyDict, [(Str("foo"), Str("foo")), (Str("bar"), Int(5))]))
  {
    var fields := [("foo", Serde.Str("foo")), ("bar", Serde.Int(Serde.U64, 5))];
    var vs := [Str("foo"), Int(5)];
    SerProperties.StructFieldsInOrder(DefaultAdapter, "Struct", fields, vs);
    assert SerProperties.FieldEntries(fields, vs) == [(Str("foo"), Str("foo")), (Str("bar"), Int(5))];
  }

  /** `TupleStruct("foo", 5)` renders as `["foo",5]`: a Python tuple. */
  lemma TupleStruct()
    ensures Convert(DefaultAdapter, Serde.TupleStruct("TupleStruct", [Serde.Str("foo"), Serde.Int(Serde.U64, 5)]))
         == Ok(Tuple([Str("foo"), Int(5)]))
  {
    var xs := [Serde.Str("foo"), Serde.Int(Serde.U64, 5)];
    var items := ConvertItems(DefaultAdapter, xs);
    assert Convert(DefaultAdapter, xs[0]) == Ok(Str("foo"));
    assert Convert(DefaultAdapter, xs[1]) == Ok(Int(5));
    assert items.value == [Str("foo"), Int(5)];
  }

  /** `("foo", 5)` renders as `["foo",5]`: a Python tuple. */
  lemma PlainTuple()
    ensures Convert(DefaultAdapter, Serde.Tuple([Serde.Str("foo"), Serde.Int(Serde.I32, 5)]))
         == Ok(Tuple([Str("foo"), Int(5)]))
  {
    var xs := [Serde.Str("foo"), Serde.Int(Serde.I32, 5)];
    var items := ConvertItems(DefaultAdapter, xs);
    assert Convert(DefaultAdapter, xs[0]) == Ok(Str("foo"));
    assert Convert(DefaultAdapter, xs[1]) == Ok(Int(5));
    assert items.value == [Str("foo"), Int(5)];
  }

  /** `vec![1, 2, 3]` renders as `[1,2,3]`: a native list. */
  lemma Vec()
    ensures Convert(DefaultAdapter, Serde.Seq([Serde.Int(Serde.I32, 1), Serde.Int(Serde.I32, 2), Serde.Int(Serde.I32, 3)]))
         == Ok(List(PyList, [Int(1), Int(2), Int(3)]))
  {
    var xs := [Serde.Int(Serde.I32, 1), Serde.Int(Serde.I32, 2), Serde.Int(Serde.I32, 3)];
    var items := ConvertItems(DefaultAdapter, xs);
    assert Convert(DefaultAdapter, xs[0]) == Ok(Int(1));
    assert Convert(DefaultAdapter, xs[1]) == Ok(Int(2));
    assert Convert(DefaultAdapter, xs[2]) == Ok(Int(3));
    assert items.value == [Int(1), Int(2), Int(3)];
  }

  /** `hashmap! {"foo" => "foo"}` renders as `{"foo":"foo"}`. */
  lemma SingletonMap()
    ensures Convert(DefaultAdapter, Serde.Map([(Serde.Str("foo"), Serde.Str("foo"))]))
         == Ok(Dict(PyDict, [(Str("foo"), Str("foo"))]))
  {
    assert Insert([], Str("foo"), Str("foo")) == [(Str("foo"), Str("foo"))];
  }

  /** `E::Empty` renders as `"Empty"`. */
  lemma EnumUnitVariant()
    ensures Convert(DefaultAdapter, Serde.UnitVariant("E", "Empty")) == Ok(Str("Empty"))
  {
  }

  /** `E::Tuple(5, "foo")` renders as `{"Tuple":[5,"foo"]}`. */
  lemma EnumTupleVariant()
    ensures Convert(DefaultAdapter, Serde.TupleVariant("E", "Tuple", [Serde.Int(Serde.I32, 5), Serde.Str("foo")]))
         == Ok(Dict(PyDict, [(Str("Tuple"), Tuple([Int(5), Str("foo")]))]))
  {
    var xs := [Serde.Int(Serde.I32, 5), Serde.Str("foo")];
    var items := ConvertItems(DefaultAdapter, xs);
    assert Convert(DefaultAdapter, xs[0]) == Ok(Int(5));
    assert Convert(DefaultAdapter, xs[1]) == Ok(Str("foo"));
    assert items.value == [Int(5), Str("foo")];
  }

  /** `E::NewType("foo")` renders as `{"NewType":"foo"}`. */
  lemma EnumNewtypeVariant()
    ensures Convert(DefaultAdapter, Serde.NewtypeVariant("E", "NewType", Serde.Str("foo")))
         == Ok(Dict(PyDict, [(Str("NewType"), Str("foo"))]))
  {
  }

  /** `E::Struct { foo: "foo", bar: 5 }` renders as `{"Struct":{"foo":"foo","bar":5}}`. */
  lemma EnumStructVariant()
    ensures Convert(DefaultAdapter, Serde.StructVariant("E", "Struct", [("foo", Serde.Str("foo")), ("bar", Serde.Int(Serde.U64, 5))]))
         == Ok(Dict(PyDict, [(Str("Struct"), Dict(PyDict, [(Str("foo"), Str("foo")), (Str("bar"), Int(5))]))]))
  {
    var fields := [("foo", Serde.Str("foo")), ("bar", Serde.Int(Serde.U64, 5))];
    var vs := [Str("foo"), Int(5)];
    SerProperties.FieldsInOrder(DefaultAdapter, fields, vs);
    assert SerProperties.FieldEntries(fields, vs) == [(Str("foo"), Str("foo")), (Str("bar"), Int(5))];
    StructVariantResult(DefaultAdapter, "E", "Struct", fields);
  }

  /** A key fed twice keeps its first place and takes the later value: `{a: x, b: y, a: z}` is `{a: z, b: y}`. */
  lemma RepeatedMapKey(a: string, b: string, x: int, y: int, z: int)
    requires a != b
    ensures Convert(DefaultAdapter, Serde.Map([
              (Serde.Str(a), Serde.Int(Serde.I32, x)),
              (Serde.Str(b), Serde.Int(Serde.I32, y)),
              (Serde.Str(a), Serde.Int(Serde.I32, z))]))
         == Ok(Dict(PyDict, [(Str(a), Int(z)), (Str(b), Int(y))]))
  {
    var kvs := [(Serde.Str(a), Serde.Int(Serde.I32, x)), (Serde.Str(b), Serde.Int(Serde.I32, y)), (Serde.Str(a), Serde.Int(Serde.I32, z))];
    RepeatedKeyPairs(a, b, x, y, z);
    RepeatedKeyInserts(a, b, x, y, z);
    MapResult(DefaultAdapter, kvs);
  }

  /** The three pairs are stored one after the other. */
  lemma RepeatedKeyPairs(a: string, b: string, x: int, y: int, z: int)
    ensures ConvertPairs(DefaultAdapter, [(Serde.Str(a), Serde.Int(Serde.I32, x)), (Serde.Str(b), Serde.Int(Serde.I32, y)), (Serde.Str(a), Serde.Int(Serde.I32, z))])
         == Ok(Insert(Insert(Insert([], Str(a), Int(x)), Str(b), Int(y)), Str(a), Int(z)))
  {
    var kvs := [(Serde.Str(a), Serde.Int(Serde.I32, x)), (Serde.Str(b), Serde.Int(Serde.I32, y)), (Serde.Str(a), Serde.Int(Serde.I32, z))];
    var one := Insert([], Str(a), Int(x));
    var two := Insert(one, Str(b), Int(y));
    assert ConvertPairs(DefaultAdapter, kvs[..1]) == Ok(one) by {
      StoreStringKey(DefaultAdapter, [], a, x);
      PairsStep(DefaultAdapter, kvs, 0);
      assert kvs[..0] == [];
    }
    assert ConvertPairs(DefaultAdapter, kvs[..2]) == Ok(two) by {
      StoreStringKey(DefaultAdapter, one, b, y);
      PairsStep(DefaultAdapter, kvs, 1);
    }
    assert ConvertPairs(DefaultAdapter, kvs[..3]) == Ok(Insert(two, Str(a), Int(z))) by {
      StoreStringKey(DefaultAdapter, two, a, z);
      PairsStep(DefaultAdapter, kvs, 2);
    }
    assert kvs[..3] == kvs;
  }

  /** Setting `a`, `b`, then `a` again leaves `a` first, holding the last value. */
  lemma RepeatedKeyInserts(a: string, b: string, x: int, y: int, z: int)
    requires a != b
    ensures Insert(Insert(Insert([], Str(a), Int(x)), Str(b), Int(y)), Str(a), Int(z)) == [(Str(a), Int(z)), (Str(b), Int(y))]
  {
    var one := [(Str(a), Int(x))];
    var two := [(Str(a), Int(x)), (Str(b), Int(y))];
    assert Insert([], Str(a), Int(x)) == one;
    assert Str(b) !in Keys(one);
    assert Insert(one, Str(b), Int(y)) == two;
    assert FindKey(two, Str(a)) == Some(0);
  }

  /** A string key with a 32-bit integer value is stored as a Python `str` key and `int` value. */
  lemma StoreStringKey(p: Adapter, entries: seq<Entry>, s: string, n: int)
    ensures StorePair(p, entries, (Serde.Str(s), Serde.Int(Serde.I32, n))) == Ok(Insert(entries, Str(s), Int(n)))
  {
    assert Convert(p, Serde.Str(s)) == Ok(Str(s));
    assert Convert(p, Serde.Int(Serde.I32, n)) == Ok(Int(n));
  }

  /** A sequence used as a map key cannot be hashed: the conversion fails with Python's `TypeError`. */
  lemma UnhashableMapKey(n: int)
    ensures Convert(DefaultAdapter, Serde.Map([(Serde.Seq([Serde.Int(Serde.I32, n)]), Serde.Unit)]))
         == Err(Python(UnhashableType(List(PyList, [Int(n)]))))
  {
    var kvs := [(Serde.Seq([Serde.Int(Serde.I32, n)]), Serde.Unit)];
    var key := List(PyList, [Int(n)]);
    var err := Python(UnhashableType(key));
    assert Convert(DefaultAdapter, kvs[0].0) == Ok(key) by {
      var xs := [Serde.Int(Serde.I32, n)];
      assert Convert(DefaultAdapter, xs[0]) == Ok(Int(n));
      assert ConvertItems(DefaultAdapter, xs).value == [Int(n)];
      CollectionResult(DefaultAdapter, kvs[0].0);
    }
    assert StorePair(DefaultAdapter, [], kvs[0]) == Err(err) by {
      assert Convert(DefaultAdapter, kvs[0].1) == Ok(Null);
    }
    assert ConvertPairs(DefaultAdapter, kvs) == Err(err) by {
      PairsStep(DefaultAdapter, kvs, 0);
      assert kvs[..0] == [] && kvs[..1] == kvs;
    }
    MapResult(DefaultAdapter, kvs);
  }

  /** A 128-bit integer is refused by serde's default method, which the serializer does not override. */
  lemma WideInteger()
    ensures Convert(DefaultAdapter, Serde.Int(Serde.U128, 1)) == Err(Custom("u128 is not supported"))
  {
  }

  /**
    `serialize_key` twice, then `serialize_value`: the second key silently
    replaces the first, which never reaches the mapping.
  */
  method PendingKeyIsReplaced() returns (r: Res<PyObj>)
    ensures r == Ok(Dict(PyDict, [(Str("b"), Int(1))]))
  {
    var m := new MapSerializer(DefaultAdapter);
    var done := m.SerializeKey(Serde.Str("a"));
    done := m.SerializeKey(Serde.Str("b"));
    assert m.key == Some(Str("b"));
    assert Insert([], Str("b"), Int(1)) == [(Str("b"), Int(1))];
    done := m.SerializeValue(Serde.Int(Serde.I32, 1));
    r := m.End();
  }

  /** A value whose conversion fails still consumes the pending key and leaves the mapping empty. */
  method FailedValueConsumesKey() returns (r: Res<PyObj>)
    ensures r == Ok(Dict(PyDict, []))
  {
    var m := new MapSerializer(DefaultAdapter);
    var done := m.SerializeKey(Serde.Str("a"));
    done := m.SerializeValue(Serde.Int(Serde.I128, 1));
    assert done.Fail? && m.key == None;
    r := m.End();
  }
}
