/** The heap the routine works on, as a value: every live object by identity.
    Reading and writing one entry of one object, and allocating a fresh object. */
module ObjectStore {
  import opened JsValues

  /** Every live object by identity, and the next identity to hand out. */
  datatype Store = Store(objects: map<NodeId, JsObject>, next: NodeId)

  /** Every reference held inside `o` points at an object in `ids`. */
  ghost predicate RefsWithin(o: JsObject, ids: set<NodeId>) {
    forall k :: k in o.props && o.props[k].Ref? ==> o.props[k].id in ids
  }

  /** No dangling references, no identity at or above `next`, every object well formed. */
  ghost predicate Valid(st: Store) {
    forall id :: id in st.objects ==>
      id < st.next && WellFormed(st.objects[id]) && RefsWithin(st.objects[id], st.objects.Keys)
  }

  /** A value that is a primitive or a reference to a live object. */
  predicate ValueIn(st: Store, v: Value) {
    v.Ref? ==> v.id in st.objects
  }

  /** Every value in `vs` is a primitive or a reference to a live object. */
  predicate ValuesIn(st: Store, vs: seq<Value>) {
    forall i :: 0 <= i < |vs| ==> ValueIn(st, vs[i])
  }

  lemma ValuesInGrows(st: Store, st': Store, vs: seq<Value>)
    requires ValuesIn(st, vs) && Grows(st, st')
    ensures ValuesIn(st', vs)
  {
    forall i | 0 <= i < |vs| ensures ValueIn(st', vs[i]) {
      assert ValueIn(st, vs[i]);
    }
  }

  /** Every identity on the visited list is live. */
  predicate VisitedIn(st: Store, visited: seq<NodeId>) {
    forall i :: 0 <= i < |visited| ==> visited[i] in st.objects
  }

  /** Nothing is freed and identities are never reused. */
  predicate Grows(st: Store, st': Store) {
    st.objects.Keys <= st'.objects.Keys && st.next <= st'.next
  }

  /** Every object that was live in `st`, except `t`, is the same in `st'`. */
  ghost predicate UnchangedExcept(st: Store, st': Store, t: NodeId) {
    forall id :: id in st.objects && id != t ==> id in st'.objects && st'.objects[id] == st.objects[id]
  }

  /** Live objects not yet on the visited list. */
  function Unvisited(st: Store, visited: seq<NodeId>): set<NodeId> {
    set id | id in st.objects && id !in visited
  }

  /** A fresh empty object of the given kind, as `Reflect.construct(value.constructor, value)`
      builds for a plain object, a Map or a Set. */
  function Construct(st: Store, kind: Kind): (r: (Store, NodeId))
    requires Valid(st)
    ensures Valid(r.0) && Grows(st, r.0)
    ensures r.1 !in st.objects && r.0.objects.Keys == st.objects.Keys + {r.1}
    ensures r.0.objects[r.1] == Empty(kind)
    ensures UnchangedExcept(st, r.0, r.1)
  {
    (Store(st.objects[st.next := Empty(kind)], st.next + 1), st.next)
  }

  /** `getValue(source, key)` on the live object `s`. */
  function Read(st: Store, s: NodeId, k: Key): (r: Result<Value>)
    requires Valid(st) && s in st.objects
    ensures r.Ok? ==> ValueIn(st, r.value)
    ensures r.Err? <==> IsSet(st.objects[s])
  {
    GetValue(st.objects[s], k)
  }

  /** `setValue(target, key, value)` on the live object `t`: only `t` changes,
      and only at `k`. */
  function Write(st: Store, t: NodeId, k: Key, v: Value): (r: Result<Store>)
    requires Valid(st) && t in st.objects && ValueIn(st, v)
    ensures r.Err? <==> IsSet(st.objects[t])
    ensures r.Ok? ==> Valid(r.value) && Grows(st, r.value) && r.value.objects.Keys == st.objects.Keys
    ensures r.Ok? ==> UnchangedExcept(st, r.value, t) && r.value.objects[t] == Put(st.objects[t], k, v)
  {
    match SetValue(st.objects[t], k, v)
    case Err(e) => Err(e)
    case Ok(o) => Ok(Store(st.objects[t := o], st.next))
  }

  lemma CardSubset(a: set<NodeId>, b: set<NodeId>)
    requires a <= b
    ensures |a| <= |b|
  {
    assert b == a + (b - a);
  }

  /** Pushing live, unvisited identities takes exactly them off the unvisited set. */
  lemma UnvisitedAfterPush(st: Store, visited: seq<NodeId>, t: NodeId, s: NodeId)
    requires t in st.objects && s in st.objects && t !in visited && s !in visited
    ensures Unvisited(st, visited + [t, s]) == Unvisited(st, visited) - {t, s}
    ensures |Unvisited(st, visited + [t, s])| == |Unvisited(st, visited)| - (if t == s then 1 else 2)
  {
    var before := Unvisited(st, visited);
    var after := Unvisited(st, visited + [t, s]);
    assert after == before - {t, s};
    assert before == after + {t, s};
  }

  /** Allocating `f` adds exactly `f` to the unvisited set. */
  lemma UnvisitedAfterAlloc(st: Store, st': Store, visited: seq<NodeId>, f: NodeId)
    requires VisitedIn(st, visited) && f !in st.objects && st'.objects.Keys == st.objects.Keys + {f}
    ensures Unvisited(st', visited) == Unvisited(st, visited) + {f}
  {
  }
}
