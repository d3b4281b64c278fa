/** Values and objects as deepAssign sees them, and the key dispatch helpers
    (isObject, isMap, isSet, getIterator, getValue, setValue) on one object. */
module JsValues {

  /** Identity of a heap object (what `===` compares for objects). */
  type NodeId = nat

  /** Property names of plain objects and keys of Maps. */
  type Key = string

  datatype Primitive = Undefined | Null | Boolean(b: bool) | Number(n: int) | String(s: string)

  /** A JavaScript value: a primitive, or a reference to a heap object. */
  datatype Value = Prim(p: Primitive) | Ref(id: NodeId)

  /** The internal slot that `Map.prototype.has` and `Set.prototype.has` probe for. */
  datatype Kind = PlainKind | MapKind | SetKind

  /** One heap object: its kind, its keys in enumeration order and its entries. */
  datatype JsObject = JsObject(kind: Kind, keys: seq<Key>, props: map<Key, Value>)

  /** The two errors the routine throws itself, and the host TypeError raised
      when `.get` or `.set` is called on a Set. */
  datatype Error = NullSource | CircularReference | TypeError(member: string)

  datatype Result<T> = Ok(value: T) | Err(error: Error)

  predicate Distinct(ks: seq<Key>) {
    forall i, j :: 0 <= i < j < |ks| ==> ks[i] != ks[j]
  }

  /** Each entry is enumerated exactly once. */
  ghost predicate WellFormed(o: JsObject) {
    Distinct(o.keys) && forall k :: k in o.props <==> k in o.keys
  }

  /** `value === Object(value)`: `Object` boxes a primitive into a new object,
      so only a reference is equal to its own boxing. */
  predicate IsObject(v: Value)
    ensures v.Ref? ==> IsObject(v)
    ensures v.Prim? ==> !IsObject(v)
  {
    v.Ref?
  }

  /** `Map.prototype.has.call(object)` succeeds: the object has a Map's
      internal slot, which no Set has. */
  predicate IsMap(o: JsObject)
    ensures IsMap(o) ==> !IsSet(o)
    ensures IsMap(o) || IsSet(o) <==> o.kind != PlainKind
  {
    o.kind == MapKind
  }

  /** `Set.prototype.has.call(object)` succeeds: the object has a Set's
      internal slot, which no Map has. */
  predicate IsSet(o: JsObject)
    ensures IsSet(o) ==> o.kind != MapKind
  {
    o.kind == SetKind
  }

  /** An empty object of the given kind. */
  function Empty(kind: Kind): (o: JsObject)
    ensures WellFormed(o) && o.kind == kind && o.keys == [] && o.props == map[]
  {
    JsObject(kind, [], map[])
  }

  /** The keys `getIterator` yields: `keys()` of a Map or Set, `Object.keys`
      of anything else; in every case each own entry once, in order. */
  function GetIterator(o: JsObject): (ks: seq<Key>)
    requires WellFormed(o)
    ensures Distinct(ks)
    ensures forall k :: k in ks <==> k in o.props
  {
    o.keys
  }

  /** Reading an entry: `undefined` when it is absent, as both `m.get(k)` and `o[k]` give. */
  function Lookup(o: JsObject, k: Key): Value {
    if k in o.props then o.props[k] else Prim(Undefined)
  }

  /** `getValue`: Map and Set go through `.get`, which a Set does not have. */
  function GetValue(o: JsObject, k: Key): (r: Result<Value>)
    ensures r.Err? <==> IsSet(o)
    ensures r.Ok? && k in o.props ==> r.value == o.props[k]
    ensures r.Ok? && k !in o.props ==> r.value == Prim(Undefined)
  {
    if IsMap(o) || IsSet(o) then
      if IsMap(o) then Ok(Lookup(o, k)) else Err(TypeError("get"))
    else
      Ok(Lookup(o, k))
  }

  /** Writing an entry: an existing key keeps its place, a new one goes last. */
  function Put(o: JsObject, k: Key, v: Value): (r: JsObject)
    ensures r.kind == o.kind
    ensures o.keys <= r.keys
    ensures WellFormed(o) ==> WellFormed(r) && k in r.keys
    ensures k in r.props && r.props[k] == v
    ensures forall j :: j != k ==> (j in r.props <==> j in o.props)
    ensures forall j :: j != k && j in o.props ==> r.props[j] == o.props[j]
  {
    JsObject(o.kind, if k in o.props then o.keys else o.keys + [k], o.props[k := v])
  }

  /** `setValue`: Map and Set go through `.set`, which a Set does not have. */
  function SetValue(o: JsObject, k: Key, v: Value): (r: Result<JsObject>)
    ensures r.Err? <==> IsSet(o)
  {
    if IsMap(o) || IsSet(o) then
      if IsMap(o) then Ok(Put(o, k, v)) else Err(TypeError("set"))
    else
      Ok(Put(o, k, v))
  }

  /** Reading back what was just written gives the written value, and every
      other key reads as before. */
  lemma SetThenGet(o: JsObject, k: Key, v: Value, j: Key)
    requires SetValue(o, k, v).Ok?
    ensures GetValue(SetValue(o, k, v).value, k) == Ok(v)
    ensures j != k ==> GetValue(SetValue(o, k, v).value, j) == GetValue(o, j)
  {
  }

  /** Writing a key twice keeps only the second value: the object is then the
      same as after the second write alone. */
  lemma SetTwice(o: JsObject, k: Key, v: Value, w: Value)
    requires WellFormed(o)
    ensures Put(Put(o, k, v), k, w) == Put(o, k, w)
  {
  }
}
