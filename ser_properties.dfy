/**
  What the conversion of `src/ser.rs` guarantees, stated over `Convert` and its
  helpers: the values that become `None`, the wrappers that vanish, the one-entry
  mapping every variant gets, order preservation in sequences and structs,
  last-write-wins in maps, first-error-wins propagation, the validity of every
  mapping produced, and the independence of the tree's shape from the container
  classes chosen.
*/
module SerProperties {
  import opened Base
  import opened PyObjects
  import opened Ser
  import Serde

  // ---------------------------------------------------------------------------
  // Null and pass-through cases
  // ---------------------------------------------------------------------------

  /** The values whose conversion is Python's `None`: absent options, units, unit structs, and wrappers around those. */
  predicate NullLike(v: Value) {
    match v
    case None => true
    case Unit => true
    case UnitStruct(_) => true
    case Some(x) => NullLike(x)
    case NewtypeStruct(_, x) => NullLike(x)
    case _ => false
  }

  /** A value converts to `None` exactly when it is null-like; no other kind of value does. */
  lemma {:induction false} NullExactly(p: Adapter, v: Value)
    ensures Convert(p, v) == Ok(Null) <==> NullLike(v)
  {
    match v
    case Some(x) => NullExactly(p, x);
    case NewtypeStruct(_, x) => NullExactly(p, x);
    case _ =>
  }

  /** The value with every `Some` and newtype-struct layer around it removed. */
  function Unwrapped(v: Value): (u: Value)
    ensures !u.Some? && !u.NewtypeStruct?
  {
    match v
    case Some(x) => Unwrapped(x)
    case NewtypeStruct(_, x) => Unwrapped(x)
    case _ => v
  }

  /** `Some` and newtype structs add nothing: a value converts exactly as what it wraps. */
  lemma {:induction false} WrappersAreTransparent(p: Adapter, v: Value)
    ensures Convert(p, v) == Convert(p, Unwrapped(v))
  {
    match v
    case Some(x) => WrappersAreTransparent(p, x);
    case NewtypeStruct(_, x) => WrappersAreTransparent(p, x);
    case _ =>
  }

  /** The leaves: scalars map to the Python scalar of the same value, with no truncation of integers up to 64 bits. */
  lemma LeafConversions(p: Adapter)
    ensures forall b :: Convert(p, Serde.Bool(b)) == Ok(Bool(b))
    ensures forall w, n | w != Serde.I128 && w != Serde.U128 :: Convert(p, Serde.Int(w, n)) == Ok(Int(n))
    ensures forall n :: Convert(p, Serde.Int(Serde.I128, n)) == Err(Custom("i128 is not supported"))
    ensures forall n :: Convert(p, Serde.Int(Serde.U128, n)) == Err(Custom("u128 is not supported"))
    ensures forall c :: Convert(p, Serde.Char(c)) == Ok(Str([c]))
    ensures forall s :: Convert(p, Serde.Str(s)) == Ok(Str(s))
    ensures forall bs :: Convert(p, Serde.Bytes(bs)) == Ok(Bytes(bs))
  {
  }

  /** A unit variant is the bare string of its variant name, with no mapping around it. */
  lemma UnitVariantIsBareString(p: Adapter, name: string, variant: string)
    ensures Convert(p, Serde.UnitVariant(name, variant)) == Ok(Str(variant))
  {
  }

  // ---------------------------------------------------------------------------
  // Variants
  // ---------------------------------------------------------------------------

  /** What a non-unit variant carries: the same value without its variant tag. */
  function Payload(v: Value): Value
    requires v.NewtypeVariant? || v.TupleVariant? || v.StructVariant?
  {
    match v
    case NewtypeVariant(_, _, x) => x
    case TupleVariant(_, _, xs) => Serde.Tuple(xs)
    case StructVariant(name, _, fields) => Serde.Struct(name, fields)
  }

  /**
    A newtype, tuple or struct variant converts to a native `dict`, whatever the
    container classes, with exactly one entry: the variant name mapped to the
    conversion of the payload. It fails exactly when the payload fails, with the
    payload's error.
  */
  lemma VariantsWrapOnce(p: Adapter, v: Value)
    requires v.NewtypeVariant? || v.TupleVariant? || v.StructVariant?
    ensures Convert(p, v).Ok? <==> Convert(p, Payload(v)).Ok?
    ensures Convert(p, v).Ok? ==> Convert(p, v).value == Dict(PyDict, [(Str(v.variant), Convert(p, Payload(v)).value)])
    ensures Convert(p, v).Err? ==> Convert(p, v).error == Convert(p, Payload(v)).error
  {
    match v
    case NewtypeVariant(_, _, _) =>
    case TupleVariant(_, _, xs) =>
      TupleVariantResult(p, v.name, v.variant, v.elems);
      CollectionResult(p, Serde.Tuple(xs));
    case StructVariant(name, _, fields) =>
      StructVariantResult(p, v.name, v.variant, v.fields);
      StructResult(p, name, fields);
  }

  // ---------------------------------------------------------------------------
  // Sequences and tuples
  // ---------------------------------------------------------------------------

  /**
    A sequence becomes an instance of the adapter's sequence class holding, in
    order, one converted item per element; it succeeds exactly when every element does.
  */
  lemma SeqKeepsOrder(p: Adapter, xs: seq<Value>)
    ensures Convert(p, Serde.Seq(xs)).Ok? <==> forall i | 0 <= i < |xs| :: Convert(p, xs[i]).Ok?
    ensures var r := Convert(p, Serde.Seq(xs));
      r.Ok? ==> r.value.List? && r.value.listClass == p.listClass && |r.value.items| == |xs|
    ensures var r := Convert(p, Serde.Seq(xs));
      r.Ok? ==> forall i | 0 <= i < |xs| :: Convert(p, xs[i]) == Ok(r.value.items[i])
  {
  }

  /**
    Tuples and tuple structs build a Python `tuple`, never the adapter's sequence
    class, holding the same items in the same order as the sequence would.
  */
  lemma TuplesBuildTuples(p: Adapter, name: string, xs: seq<Value>)
    ensures Convert(p, Serde.TupleStruct(name, xs)) == Convert(p, Serde.Tuple(xs))
    ensures Convert(p, Serde.Tuple(xs)).Ok? <==> Convert(p, Serde.Seq(xs)).Ok?
    ensures Convert(p, Serde.Seq(xs)).Ok? ==> Convert(p, Serde.Tuple(xs)) == Ok(Tuple(Convert(p, Serde.Seq(xs)).value.items))
  {
  }

  /**
    The first element that fails decides: its error is the error of the whole
    sequence, tuple, tuple struct or tuple variant, and nothing after it is looked at.
  */
  lemma FirstFailingElementDecides(p: Adapter, name: string, variant: string, xs: seq<Value>, k: nat)
    requires k < |xs| && Convert(p, xs[k]).Err?
    requires forall j | 0 <= j < k :: Convert(p, xs[j]).Ok?
    ensures ConvertItems(p, xs) == Err(Convert(p, xs[k]).error)
    ensures Convert(p, Serde.Seq(xs)) == Err(Convert(p, xs[k]).error)
    ensures Convert(p, Serde.Tuple(xs)) == Err(Convert(p, xs[k]).error)
    ensures Convert(p, Serde.TupleStruct(name, xs)) == Err(Convert(p, xs[k]).error)
    ensures Convert(p, Serde.TupleVariant(name, variant, xs)) == Err(Convert(p, xs[k]).error)
  {
    assert ConvertItems(p, xs) == Err(Convert(p, xs[k]).error) by {
      assert forall j | 0 <= j < k :: xs[..k][j] == xs[j];
      ItemsStep(p, xs, k);
      ItemsFailFrom(p, xs, k + 1);
    }
    CollectionResult(p, Serde.Seq(xs));
    CollectionResult(p, Serde.Tuple(xs));
    CollectionResult(p, Serde.TupleStruct(name, xs));
    TupleVariantResult(p, name, variant, xs);
  }

  // ---------------------------------------------------------------------------
  // Maps and structs
  // ---------------------------------------------------------------------------

  /** The distinct keys of `ks`, each once, in the order of its first appearance. */
  function FirstOccurrences(ks: seq<PyObj>): (r: seq<PyObj>)
    ensures forall k :: k in r <==> k in ks
    ensures forall i, j | 0 <= i < j < |r| :: r[i] != r[j]
  {
    if ks == [] then []
    else
      var n := |ks| - 1;
      assert ks == ks[..n] + [ks[n]];
      var init := FirstOccurrences(ks[..n]);
      if ks[n] in init then init else init + [ks[n]]
  }

  /** The value paired with the last occurrence of `k` in `ks`, or None when `k` does not occur. */
  function LastValue(ks: seq<PyObj>, vs: seq<PyObj>, k: PyObj): (r: Option<PyObj>)
    requires |ks| == |vs|
    ensures r.None? <==> k !in ks
  {
    if ks == [] then None
    else
      var n := |ks| - 1;
      assert ks == ks[..n] + [ks[n]];
      if ks[n] == k then Some(vs[n]) else LastValue(ks[..n], vs[..n], k)
  }

  lemma LastValueStep(ks: seq<PyObj>, vs: seq<PyObj>, k: PyObj)
    requires |ks| == |vs| && |ks| > 0
    ensures var n := |ks| - 1;
      LastValue(ks, vs, k) == if ks[n] == k then Some(vs[n]) else LastValue(ks[..n], vs[..n], k)
  {
  }

  /**
    One more `set_item` keeps a mapping in step with the history of keys `ks` and
    values `vs` stored into it: first-appearance order of keys, last value per key.
  */
  lemma InsertExtendsHistory(d: seq<Entry>, ks: seq<PyObj>, vs: seq<PyObj>)
    requires |ks| == |vs| && |ks| > 0
    requires Keys(d) == FirstOccurrences(ks[..|ks| - 1])
    requires forall k :: Lookup(d, k) == LastValue(ks[..|ks| - 1], vs[..|ks| - 1], k)
    ensures Keys(Insert(d, ks[|ks| - 1], vs[|ks| - 1])) == FirstOccurrences(ks)
    ensures forall k :: Lookup(Insert(d, ks[|ks| - 1], vs[|ks| - 1]), k) == LastValue(ks, vs, k)
  {
    var n := |ks| - 1;
    var init := FirstOccurrences(ks[..n]);
    assert FirstOccurrences(ks) == if ks[n] in init then init else init + [ks[n]];
    forall k ensures Lookup(Insert(d, ks[|ks| - 1], vs[|ks| - 1]), k) == LastValue(ks, vs, k) {
      LastValueStep(ks, vs, k);
    }
  }

  /** A pair a map can store: its key and its value convert, and the key is hashable. */
  predicate PairConverts(p: Adapter, kv: (Value, Value)) {
    Convert(p, kv.0).Ok? && Convert(p, kv.1).Ok? && Hashable(Convert(p, kv.0).value)
  }

  /** A map converts exactly when every one of its pairs can be stored. */
  lemma MapSucceedsIff(p: Adapter, kvs: seq<(Value, Value)>)
    ensures ConvertPairs(p, kvs).Ok? <==> forall i | 0 <= i < |kvs| :: PairConverts(p, kvs[i])
  {
    if ConvertPairs(p, kvs).Ok? {
      PairsOkOnlyIfAll(p, kvs);
    }
    if forall i | 0 <= i < |kvs| :: PairConverts(p, kvs[i]) {
      PairsOkIfAll(p, kvs);
    }
  }

  lemma PairsOkOnlyIfAll(p: Adapter, kvs: seq<(Value, Value)>)
    requires ConvertPairs(p, kvs).Ok?
    ensures forall i | 0 <= i < |kvs| :: PairConverts(p, kvs[i])
  {
    forall i | 0 <= i < |kvs| ensures PairConverts(p, kvs[i]) {
      PairOkAt(p, kvs, i);
    }
  }

  /** A stored map has stored each of its pairs: the prefix up to it succeeded, and so did the pair itself. */
  lemma PairOkAt(p: Adapter, kvs: seq<(Value, Value)>, i: nat)
    requires i < |kvs| && ConvertPairs(p, kvs).Ok?
    ensures PairConverts(p, kvs[i])
  {
    PairsFailFrom(p, kvs, i + 1);
    PairsStep(p, kvs, i);
  }

  lemma {:induction false} PairsOkIfAll(p: Adapter, kvs: seq<(Value, Value)>)
    requires forall i | 0 <= i < |kvs| :: PairConverts(p, kvs[i])
    ensures ConvertPairs(p, kvs).Ok?
    decreases |kvs|
  {
    if kvs != [] {
      var n := |kvs| - 1;
      assert kvs[..n + 1] == kvs;
      forall i | 0 <= i < n ensures PairConverts(p, kvs[..n][i]) {
        assert kvs[..n][i] == kvs[i];
      }
      PairsOkIfAll(p, kvs[..n]);
      PairsStep(p, kvs, n);
    }
  }

  /**
    The error a pair that cannot be stored reports, in the order `serialize_key`
    then `serialize_value` then `set_item` meet it: the key's conversion error,
    else the value's, else `TypeError` for the unhashable converted key.
  */
  function PairError(p: Adapter, kv: (Value, Value)): PythonizeError
    requires !PairConverts(p, kv)
  {
    if Convert(p, kv.0).Err? then Convert(p, kv.0).error
    else if Convert(p, kv.1).Err? then Convert(p, kv.1).error
    else Python(UnhashableType(Convert(p, kv.0).value))
  }

  /**
    The first pair that cannot be stored decides: its error is the error of the
    whole map, and no pair after it is looked at.
  */
  lemma FirstFailingPairDecides(p: Adapter, kvs: seq<(Value, Value)>, k: nat)
    requires k < |kvs| && !PairConverts(p, kvs[k])
    requires forall j | 0 <= j < k :: PairConverts(p, kvs[j])
    ensures ConvertPairs(p, kvs) == Err(PairError(p, kvs[k]))
    ensures Convert(p, Serde.Map(kvs)) == Err(PairError(p, kvs[k]))
  {
    assert forall j | 0 <= j < k :: kvs[..k][j] == kvs[j];
    PairsOkIfAll(p, kvs[..k]);
    PairsStep(p, kvs, k);
    PairsFailFrom(p, kvs, k + 1);
    MapResult(p, kvs);
  }

  /**
    A map whose keys `ks` and values `vs` convert, with hashable keys: the Python
    mapping has one entry per distinct key, in the order of first appearance, and
    each key holds the value of its last pair.
  */
  lemma {:induction false} PairsLastWriteWins(p: Adapter, kvs: seq<(Value, Value)>, ks: seq<PyObj>, vs: seq<PyObj>)
    requires |ks| == |kvs| && |vs| == |kvs|
    requires forall i | 0 <= i < |kvs| :: Convert(p, kvs[i].0) == Ok(ks[i]) && Convert(p, kvs[i].1) == Ok(vs[i])
    requires forall i | 0 <= i < |ks| :: Hashable(ks[i])
    ensures ConvertPairs(p, kvs).Ok?
    ensures Keys(ConvertPairs(p, kvs).value) == FirstOccurrences(ks)
    ensures forall k :: Lookup(ConvertPairs(p, kvs).value, k) == LastValue(ks, vs, k)
    decreases |kvs|
  {
    if kvs != [] {
      var n := |kvs| - 1;
      assert kvs[..n + 1] == kvs;
      assert ConvertPairs(p, kvs[..n]).Ok?
        && Keys(ConvertPairs(p, kvs[..n]).value) == FirstOccurrences(ks[..n])
        && forall k :: Lookup(ConvertPairs(p, kvs[..n]).value, k) == LastValue(ks[..n], vs[..n], k)
      by {
        forall i | 0 <= i < n
          ensures Convert(p, kvs[..n][i].0) == Ok(ks[..n][i]) && Convert(p, kvs[..n][i].1) == Ok(vs[..n][i])
        {
          assert kvs[..n][i] == kvs[i];
        }
        PairsLastWriteWins(p, kvs[..n], ks[..n], vs[..n]);
      }
      var d := ConvertPairs(p, kvs[..n]).value;
      assert ConvertPairs(p, kvs) == Ok(Insert(d, ks[n], vs[n])) by {
        PairsStep(p, kvs, n);
        assert Convert(p, kvs[n].0) == Ok(ks[n]) && Convert(p, kvs[n].1) == Ok(vs[n]);
      }
      InsertExtendsHistory(d, ks, vs);
    }
  }

  /**
    The map itself: an instance of the adapter's mapping class holding those
    entries.
  */
  lemma {:induction false} MapLastWriteWins(p: Adapter, kvs: seq<(Value, Value)>, ks: seq<PyObj>, vs: seq<PyObj>)
    requires |ks| == |kvs| && |vs| == |kvs|
    requires forall i | 0 <= i < |kvs| :: Convert(p, kvs[i].0) == Ok(ks[i]) && Convert(p, kvs[i].1) == Ok(vs[i])
    requires forall i | 0 <= i < |ks| :: Hashable(ks[i])
    ensures var r := Convert(p, Serde.Map(kvs));
      r.Ok? && r.value.Dict? && r.value.mapClass == p.mapClass
      && Keys(r.value.entries) == FirstOccurrences(ks)
      && forall k :: Lookup(r.value.entries, k) == LastValue(ks, vs, k)
  {
    PairsLastWriteWins(p, kvs, ks, vs);
    MapResult(p, kvs);
  }

  /** The keys the field names of a struct become. */
  function FieldKeys(fields: seq<(string, Value)>): (ks: seq<PyObj>)
    ensures |ks| == |fields|
    ensures forall i | 0 <= i < |fields| :: ks[i] == Str(fields[i].0)
  {
    seq(|fields|, i requires 0 <= i < |fields| => Str(fields[i].0))
  }

  /** The entries a struct with distinct field names gets: each name, as a string, with its converted value. */
  function FieldEntries(fields: seq<(string, Value)>, vs: seq<PyObj>): (r: seq<Entry>)
    requires |vs| == |fields|
    ensures |r| == |fields|
    ensures forall i | 0 <= i < |fields| :: r[i] == (Str(fields[i].0), vs[i])
  {
    seq(|fields|, i requires 0 <= i < |fields| => (Str(fields[i].0), vs[i]))
  }

  /** With distinct names, the next field is a new key and lands at the end. */
  lemma AppendFieldEntry(fields: seq<(string, Value)>, vs: seq<PyObj>)
    requires |vs| == |fields| && |fields| > 0
    requires forall i, j | 0 <= i < j < |fields| :: fields[i].0 != fields[j].0
    ensures var n := |fields| - 1;
      Insert(FieldEntries(fields[..n], vs[..n]), Str(fields[n].0), vs[n]) == FieldEntries(fields, vs)
  {
    var n := |fields| - 1;
    var d := FieldEntries(fields[..n], vs[..n]);
    assert Str(fields[n].0) !in Keys(d);
    assert FieldEntries(fields, vs) == d + [(Str(fields[n].0), vs[n])];
  }

  /** A struct or struct variant's mapping is built exactly when every field value converts. */
  lemma StructSucceedsIff(p: Adapter, fields: seq<(string, Value)>)
    ensures ConvertFields(p, fields).Ok? <==> forall i | 0 <= i < |fields| :: Convert(p, fields[i].1).Ok?
  {
    if ConvertFields(p, fields).Ok? {
      FieldsOkOnlyIfAll(p, fields);
    }
    if forall i | 0 <= i < |fields| :: Convert(p, fields[i].1).Ok? {
      FieldsOkIfAll(p, fields);
    }
  }

  lemma FieldsOkOnlyIfAll(p: Adapter, fields: seq<(string, Value)>)
    requires ConvertFields(p, fields).Ok?
    ensures forall i | 0 <= i < |fields| :: Convert(p, fields[i].1).Ok?
  {
    forall i | 0 <= i < |fields| ensures Convert(p, fields[i].1).Ok? {
      FieldOkAt(p, fields, i);
    }
  }

  /** A stored struct has stored each of its fields. */
  lemma FieldOkAt(p: Adapter, fields: seq<(string, Value)>, i: nat)
    requires i < |fields| && ConvertFields(p, fields).Ok?
    ensures Convert(p, fields[i].1).Ok?
  {
    FieldsFailFrom(p, fields, i + 1);
    FieldsStep(p, fields, i);
  }

  lemma {:induction false} FieldsOkIfAll(p: Adapter, fields: seq<(string, Value)>)
    requires forall i | 0 <= i < |fields| :: Convert(p, fields[i].1).Ok?
    ensures ConvertFields(p, fields).Ok?
    decreases |fields|
  {
    if fields != [] {
      var n := |fields| - 1;
      assert fields[..n + 1] == fields;
      forall i | 0 <= i < n ensures Convert(p, fields[..n][i].1).Ok? {
        assert fields[..n][i] == fields[i];
      }
      FieldsOkIfAll(p, fields[..n]);
      FieldsStep(p, fields, n);
    }
  }

  /**
    The first field whose value fails decides: its error is the error of the
    whole struct or struct variant, and no field after it is looked at.
  */
  lemma FirstFailingFieldDecides(p: Adapter, name: string, variant: string, fields: seq<(string, Value)>, k: nat)
    requires k < |fields| && Convert(p, fields[k].1).Err?
    requires forall j | 0 <= j < k :: Convert(p, fields[j].1).Ok?
    ensures ConvertFields(p, fields) == Err(Convert(p, fields[k].1).error)
    ensures Convert(p, Serde.Struct(name, fields)) == Err(Convert(p, fields[k].1).error)
    ensures Convert(p, Serde.StructVariant(name, variant, fields)) == Err(Convert(p, fields[k].1).error)
  {
    assert forall j | 0 <= j < k :: fields[..k][j] == fields[j];
    FieldsOkIfAll(p, fields[..k]);
    FieldsStep(p, fields, k);
    FieldsFailFrom(p, fields, k + 1);
    StructResult(p, name, fields);
    StructVariantResult(p, name, variant, fields);
  }

  /**
    Fields whose values convert to `vs`: one entry per distinct name, in the order
    of first appearance, each holding the value of the last field of that name.
  */
  lemma {:induction false} StructLastWriteWins(p: Adapter, fields: seq<(string, Value)>, vs: seq<PyObj>)
    requires |vs| == |fields|
    requires forall i | 0 <= i < |fields| :: Convert(p, fields[i].1) == Ok(vs[i])
    ensures ConvertFields(p, fields).Ok?
    ensures Keys(ConvertFields(p, fields).value) == FirstOccurrences(FieldKeys(fields))
    ensures forall k :: Lookup(ConvertFields(p, fields).value, k) == LastValue(FieldKeys(fields), vs, k)
    decreases |fields|
  {
    if fields != [] {
      var n := |fields| - 1;
      var ks := FieldKeys(fields);
      assert ConvertFields(p, fields[..n]).Ok?
        && Keys(ConvertFields(p, fields[..n]).value) == FirstOccurrences(ks[..n])
        && forall k :: Lookup(ConvertFields(p, fields[..n]).value, k) == LastValue(ks[..n], vs[..n], k)
      by {
        assert FieldKeys(fields[..n]) == ks[..n];
        forall i | 0 <= i < n ensures Convert(p, fields[..n][i].1) == Ok(vs[..n][i]) {
          assert fields[..n][i] == fields[i];
        }
        StructLastWriteWins(p, fields[..n], vs[..n]);
      }
      var d := ConvertFields(p, fields[..n]).value;
      assert ConvertFields(p, fields) == Ok(Insert(d, ks[n], vs[n])) by {
        assert fields[..n + 1] == fields;
        FieldsStep(p, fields, n);
        assert Convert(p, fields[n].1) == Ok(vs[n]);
      }
      InsertExtendsHistory(d, ks, vs);
    }
  }

  /**
    With distinct field names, a struct's mapping holds exactly one entry per
    field, in declaration order, each name mapped to its value's conversion.
  */
  lemma {:induction false} FieldsInOrder(p: Adapter, fields: seq<(string, Value)>, vs: seq<PyObj>)
    requires |vs| == |fields|
    requires forall i | 0 <= i < |fields| :: Convert(p, fields[i].1) == Ok(vs[i])
    requires forall i, j | 0 <= i < j < |fields| :: fields[i].0 != fields[j].0
    ensures ConvertFields(p, fields) == Ok(FieldEntries(fields, vs))
    decreases |fields|
  {
    if fields != [] {
      var n := |fields| - 1;
      assert fields[..n + 1] == fields;
      var d := FieldEntries(fields[..n], vs[..n]);
      assert ConvertFields(p, fields[..n]) == Ok(d) by {
        forall i | 0 <= i < n ensures Convert(p, fields[..n][i].1) == Ok(vs[..n][i]) {
          assert fields[..n][i] == fields[i];
        }
        FieldsInOrder(p, fields[..n], vs[..n]);
      }
      assert ConvertFields(p, fields) == Ok(Insert(d, Str(fields[n].0), vs[n])) by {
        FieldsStep(p, fields, n);
        assert Convert(p, fields[n].1) == Ok(vs[n]);
      }
      AppendFieldEntry(fields, vs);
    }
  }

  /**
    A struct with distinct field names converts to an instance of the adapter's
    mapping class with one entry per field, in declaration order.
  */
  lemma {:induction false} StructFieldsInOrder(p: Adapter, name: string, fields: seq<(string, Value)>, vs: seq<PyObj>)
    requires |vs| == |fields|
    requires forall i | 0 <= i < |fields| :: Convert(p, fields[i].1) == Ok(vs[i])
    requires forall i, j | 0 <= i < j < |fields| :: fields[i].0 != fields[j].0
    ensures Convert(p, Serde.Struct(name, fields)) == Ok(Dict(p.mapClass, FieldEntries(fields, vs)))
  {
    FieldsInOrder(p, fields, vs);
    StructResult(p, name, fields);
  }

  // ---------------------------------------------------------------------------
  // Validity of the tree
  // ---------------------------------------------------------------------------

  /** Every mapping in the tree is a valid Python mapping: each key occurs once and is hashable. */
  predicate WellFormed(o: PyObj)
    decreases o
  {
    match o
    case List(_, items) => forall i | 0 <= i < |items| :: WellFormed(items[i])
    case Tuple(items) => forall i | 0 <= i < |items| :: WellFormed(items[i])
    case Dict(_, entries) =>
      KeysDistinct(entries) && KeysHashable(entries)
      && forall i | 0 <= i < |entries| :: WellFormedEntry(entries[i])
    case _ => true
  }

  predicate WellFormedEntry(e: Entry)
    decreases e
  {
    WellFormed(e.0) && WellFormed(e.1)
  }

  /** Whatever the conversion returns is a well-formed tree. */
  lemma ConvertWellFormed(p: Adapter, v: Value)
    ensures Convert(p, v).Ok? ==> WellFormed(Convert(p, v).value)
    decreases v, 1
  {
    if v.Some? || v.NewtypeStruct? || v.NewtypeVariant? {
      WrappersWellFormed(p, v);
    } else if v.Seq? || v.Tuple? || v.TupleStruct? || v.TupleVariant? {
      CollectionsWellFormed(p, v);
    } else if v.Map? || v.Struct? || v.StructVariant? {
      MappingsWellFormed(p, v);
    } else {
      LeavesWellFormed(p, v);
    }
  }

  lemma LeavesWellFormed(p: Adapter, v: Value)
    requires !(v.Some? || v.NewtypeStruct? || v.NewtypeVariant?)
    requires !(v.Seq? || v.Tuple? || v.TupleStruct? || v.TupleVariant?)
    requires !(v.Map? || v.Struct? || v.StructVariant?)
    ensures Convert(p, v).Ok? ==> WellFormed(Convert(p, v).value)
  {
  }

  lemma {:induction false} WrappersWellFormed(p: Adapter, v: Value)
    requires v.Some? || v.NewtypeStruct? || v.NewtypeVariant?
    ensures Convert(p, v).Ok? ==> WellFormed(Convert(p, v).value)
    decreases v, 0
  {
    match v
    case Some(x) => ConvertWellFormed(p, x);
    case NewtypeStruct(_, x) => ConvertWellFormed(p, x);
    case NewtypeVariant(_, variant, x) =>
      ConvertWellFormed(p, x);
      if Convert(p, x).Ok? {
        WrapWellFormed(variant, Convert(p, x).value);
      }
  }

  lemma {:induction false} CollectionsWellFormed(p: Adapter, v: Value)
    requires v.Seq? || v.Tuple? || v.TupleStruct? || v.TupleVariant?
    ensures Convert(p, v).Ok? ==> WellFormed(Convert(p, v).value)
    decreases v, 0
  {
    ItemsWellFormed(p, v.elems);
    if v.TupleVariant? {
      TupleVariantResult(p, v.name, v.variant, v.elems);
      if ConvertItems(p, v.elems).Ok? {
        WrapWellFormed(v.variant, Tuple(ConvertItems(p, v.elems).value));
      }
    } else {
      CollectionResult(p, v);
    }
  }

  lemma {:induction false} MappingsWellFormed(p: Adapter, v: Value)
    requires v.Map? || v.Struct? || v.StructVariant?
    ensures Convert(p, v).Ok? ==> WellFormed(Convert(p, v).value)
    decreases v, 0
  {
    if v.Map? {
      PairsWellFormed(p, v.entries);
      MapResult(p, v.entries);
    } else {
      FieldsWellFormed(p, v.fields);
      if ConvertFields(p, v.fields).Ok? {
        FieldsMappingWellFormed(p, v.fields);
        if v.Struct? {
          StructResult(p, v.name, v.fields);
        } else {
          StructVariantResult(p, v.name, v.variant, v.fields);
          WrapWellFormed(v.variant, Dict(p.mapClass, ConvertFields(p, v.fields).value));
        }
      } else if v.Struct? {
        StructResult(p, v.name, v.fields);
      } else {
        StructVariantResult(p, v.name, v.variant, v.fields);
      }
    }
  }

  lemma FieldsMappingWellFormed(p: Adapter, fields: seq<(string, Value)>)
    requires ConvertFields(p, fields).Ok?
    requires forall i | 0 <= i < |ConvertFields(p, fields).value| :: WellFormedEntry(ConvertFields(p, fields).value[i])
    ensures WellFormed(Dict(p.mapClass, ConvertFields(p, fields).value))
  {
  }

  /** The one-entry `dict` around a variant's payload is well formed when the payload is. */
  lemma WrapWellFormed(variant: string, o: PyObj)
    requires WellFormed(o)
    ensures WellFormed(Dict(PyDict, [(Str(variant), o)]))
  {
    assert WellFormedEntry((Str(variant), o));
  }

  lemma {:induction false} ItemsWellFormed(p: Adapter, xs: seq<Value>)
    ensures ConvertItems(p, xs).Ok? ==> forall i | 0 <= i < |xs| :: WellFormed(ConvertItems(p, xs).value[i])
    decreases xs
  {
    forall i | 0 <= i < |xs| {
      ConvertWellFormed(p, xs[i]);
    }
  }

  /** Setting a well-formed key to a well-formed value keeps every entry of a mapping well formed. */
  lemma InsertWellFormed(entries: seq<Entry>, k: PyObj, v: PyObj)
    requires forall i | 0 <= i < |entries| :: WellFormedEntry(entries[i])
    requires WellFormed(k) && WellFormed(v)
    ensures forall i | 0 <= i < |Insert(entries, k, v)| :: WellFormedEntry(Insert(entries, k, v)[i])
  {
    var r := Insert(entries, k, v);
    InsertEntries(entries, k, v);
    forall i | 0 <= i < |r| ensures WellFormedEntry(r[i]) {
      assert r[i] in entries || r[i] == (k, v);
    }
  }

  lemma {:induction false} PairsWellFormed(p: Adapter, kvs: seq<(Value, Value)>)
    ensures var r := ConvertPairs(p, kvs);
      r.Ok? ==> forall i | 0 <= i < |r.value| :: WellFormedEntry(r.value[i])
    decreases kvs
  {
    var r := ConvertPairs(p, kvs);
    if kvs != [] && r.Ok? {
      var n := |kvs| - 1;
      var kv := kvs[n];
      assert ConvertPairs(p, kvs[..n]).Ok? && r == StorePair(p, ConvertPairs(p, kvs[..n]).value, kv) by {
        assert kvs[..n + 1] == kvs;
        PairsStep(p, kvs, n);
      }
      var prefix := ConvertPairs(p, kvs[..n]).value;
      var key := Convert(p, kv.0).value;
      var value := Convert(p, kv.1).value;
      PairsWellFormed(p, kvs[..n]);
      assert kv.0 < kv && kv.1 < kv;
      ConvertWellFormed(p, kv.0);
      ConvertWellFormed(p, kv.1);
      assert r.value == Insert(prefix, key, value);
      InsertWellFormed(prefix, key, value);
    }
  }

  lemma {:induction false} FieldsWellFormed(p: Adapter, fields: seq<(string, Value)>)
    ensures var r := ConvertFields(p, fields);
      r.Ok? ==> forall i | 0 <= i < |r.value| :: WellFormedEntry(r.value[i])
    decreases fields
  {
    var r := ConvertFields(p, fields);
    if fields != [] && r.Ok? {
      var n := |fields| - 1;
      var field := fields[n];
      assert ConvertFields(p, fields[..n]).Ok? && r == StoreField(p, ConvertFields(p, fields[..n]).value, field) by {
        assert fields[..n + 1] == fields;
        FieldsStep(p, fields, n);
      }
      var prefix := ConvertFields(p, fields[..n]).value;
      var value := Convert(p, field.1).value;
      FieldsWellFormed(p, fields[..n]);
      assert field.1 < field;
      ConvertWellFormed(p, field.1);
      assert r.value == Insert(prefix, Str(field.0), value);
      InsertWellFormed(prefix, Str(field.0), value);
    }
  }
}
