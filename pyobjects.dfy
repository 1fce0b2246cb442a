/**
  The output side: the tree of Python objects the serializer builds, the
  container classes a conversion can be bound to (`PythonizeTypes`), and what a
  Python mapping does when `set_item` is called on it.
*/
module PyObjects {
  import opened Base

  /** The class a "make empty mapping" call instantiates: `dict` or a caller's own mapping class. */
  datatype MapClass = PyDict | CustomMapping(name: string)

  /** The class a "make sequence from items" call instantiates: `list` or a caller's own sequence class. */
  datatype ListClass = PyList | CustomSequence(name: string)

  /** `PythonizeTypes`: the mapping class (`P::Map`) and sequence class (`P::List`) a conversion is bound to. */
  datatype Adapter = Adapter(mapClass: MapClass, listClass: ListClass)

  /** `PythonizeDefault`: native `dict` and `list`. */
  const DefaultAdapter := Adapter(PyDict, PyList)

  /** A Python object as the serializer leaves it. Mappings keep insertion order. */
  datatype PyObj =
    | Null
    | Bool(b: bool)
    | Int(n: int)
    | Str(s: string)
    | Bytes(bytes: seq<uint8>)
    | List(listClass: ListClass, items: seq<PyObj>)
    | Tuple(items: seq<PyObj>)
    | Dict(mapClass: MapClass, entries: seq<(PyObj, PyObj)>)

  type Entry = (PyObj, PyObj)

  /** The exception a Python mapping raises from `__setitem__`. */
  datatype PyErr = UnhashableType(key: PyObj)

  /** Python's `hash()` succeeds: immutable scalars, and tuples of hashable objects. */
  predicate Hashable(o: PyObj) {
    match o
    case List(_, _) => false
    case Dict(_, _) => false
    case Tuple(items) => forall i | 0 <= i < |items| :: Hashable(items[i])
    case _ => true
  }

  /** The keys of a mapping, in insertion order. */
  function Keys(entries: seq<Entry>): (ks: seq<PyObj>)
    ensures |ks| == |entries|
  {
    seq(|entries|, i requires 0 <= i < |entries| => entries[i].0)
  }

  predicate KeysDistinct(entries: seq<Entry>) {
    forall i, j | 0 <= i < j < |entries| :: entries[i].0 != entries[j].0
  }

  predicate KeysHashable(entries: seq<Entry>) {
    forall i | 0 <= i < |entries| :: Hashable(entries[i].0)
  }

  /** The position of the first entry whose key is `k`. */
  function FindKey(entries: seq<Entry>, k: PyObj): (r: Option<nat>)
    ensures r.Some? ==> r.value < |entries| && entries[r.value].0 == k
    ensures r.Some? ==> forall j | 0 <= j < r.value :: entries[j].0 != k
    ensures r.None? ==> forall j | 0 <= j < |entries| :: entries[j].0 != k
  {
    if entries == [] then None
    else if entries[0].0 == k then Some(0)
    else
      match FindKey(entries[1..], k)
      case None => None
      case Some(i) => Some(i + 1)
  }

  /** `mapping[k]`, or None when `k` is absent. */
  function Lookup(entries: seq<Entry>, k: PyObj): Option<PyObj> {
    match FindKey(entries, k)
    case Some(i) => Some(entries[i].1)
    case None => None
  }

  /** Two entry lists with the same keys in the same order find every key at the same place. */
  lemma FindKeySameKeys(a: seq<Entry>, b: seq<Entry>, k: PyObj)
    requires |a| == |b| && forall i | 0 <= i < |a| :: a[i].0 == b[i].0
    ensures FindKey(a, k) == FindKey(b, k)
  {
  }

  /**
    `mapping[k] = v` for a hashable `k`: a key already present keeps its place
    and gets the new value, a new key is appended at the end.
  */
  function Insert(entries: seq<Entry>, k: PyObj, v: PyObj): (r: seq<Entry>)
    ensures Lookup(r, k) == Some(v)
    ensures forall k' | k' != k :: Lookup(r, k') == Lookup(entries, k')
    ensures Keys(r) == if k in Keys(entries) then Keys(entries) else Keys(entries) + [k]
    ensures KeysDistinct(entries) ==> KeysDistinct(r)
    ensures k !in Keys(entries) ==> r == entries + [(k, v)]
    ensures k in Keys(entries) ==> |r| == |entries|
  {
    match FindKey(entries, k)
    case Some(i) =>
      var r := entries[i := (entries[i].0, v)];
      assert Keys(r) == Keys(entries);
      assert k in Keys(entries) by { assert Keys(entries)[i] == k; }
      forall k' ensures Lookup(r, k') == if k' == k then Some(v) else Lookup(entries, k') {
        FindKeySameKeys(r, entries, k');
      }
      r
    case None =>
      var r := entries + [(k, v)];
      assert k !in Keys(entries);
      assert Keys(r) == Keys(entries) + [k];
      assert FindKey(r, k) == Some(|entries|) by {
        FindKeyAppend(entries, (k, v), k);
      }
      forall k' | k' != k ensures Lookup(r, k') == Lookup(entries, k') {
        FindKeyAppend(entries, (k, v), k');
      }
      r
  }

  /** Every entry after `mapping[k] = v` was there before or is the new pair. */
  lemma InsertEntries(entries: seq<Entry>, k: PyObj, v: PyObj)
    ensures forall e | e in Insert(entries, k, v) :: e in entries || e == (k, v)
  {
  }

  /** Appending an entry moves no key already present; the new key is found at the end only when it was absent. */
  lemma {:induction false} FindKeyAppend(entries: seq<Entry>, e: Entry, k: PyObj)
    ensures FindKey(entries + [e], k) ==
      if FindKey(entries, k).Some? then FindKey(entries, k)
      else if e.0 == k then Some(|entries|)
      else None
  {
    var full := entries + [e];
    assert forall j | 0 <= j < |entries| :: full[j] == entries[j];
    assert full[|entries|] == e;
  }

  /** `mapping.set_item(k, v)`: raises `TypeError` for an unhashable key and leaves the mapping as it was. */
  function SetItemResult(entries: seq<Entry>, k: PyObj, v: PyObj): (r: Result<seq<Entry>, PyErr>)
    ensures r.Err? <==> !Hashable(k)
    ensures r.Err? ==> r.error == UnhashableType(k)
    ensures r.Ok? ==> r.value == Insert(entries, k, v)
    ensures r.Ok? ==> Lookup(r.value, k) == Some(v)
    ensures r.Ok? ==> forall k' | k' != k :: Lookup(r.value, k') == Lookup(entries, k')
  {
    if Hashable(k) then Ok(Insert(entries, k, v)) else Err(UnhashableType(k))
  }

  /**
    A Python mapping object (`P::Map`, or a `PyDict`) that the serializers
    create once and then mutate in place with `set_item`.
  */
  class PyMapping {
    const mapClass: MapClass
    var entries: seq<Entry>

    /** What every Python mapping guarantees: each key occurs once and is hashable. */
    ghost predicate Valid()
      reads this
    {
      KeysDistinct(entries) && KeysHashable(entries)
    }

    /** `P::Map::new(py)` or `PyDict::new(py)`: a fresh, empty mapping. */
    constructor (mapClass: MapClass)
      ensures this.mapClass == mapClass && entries == [] && Valid()
    {
      this.mapClass := mapClass;
      entries := [];
    }

    /** `set_item(k, v)`: on success the entries become `Insert(old entries, k, v)`; on failure nothing changes. */
    method SetItem(k: PyObj, v: PyObj) returns (r: Outcome<PyErr>)
      requires Valid()
      modifies this
      ensures Valid()
      ensures SetItemResult(old(entries), k, v) == if r.Pass? then Ok(entries) else Err(r.error)
      ensures r.Fail? ==> entries == old(entries)
    {
      if Hashable(k) {
        entries := Insert(entries, k, v);
        r := Pass;
      } else {
        r := Fail(UnhashableType(k));
      }
    }

    /** `as_mapping().into()`: the object handed back to the caller. */
    function Object(): PyObj
      reads this
    {
      Dict(mapClass, entries)
    }
  }
}
