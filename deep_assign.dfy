/** deepAssign as the program runs it: a heap whose objects are updated in
    place, an append-only identity list shared by every call for one source,
    and the `while` loop over a source's keys. Each method is proved to leave
    the heap exactly as the functions of AssignSpec say. */
module DeepAssignImpl {
  import opened JsValues
  import opened ObjectStore
  import AssignSpec

  /** The `assignedObjects` array: only ever pushed onto. */
  class IdentityList {
    var items: seq<NodeId>

    constructor ()
      ensures items == []
    {
      items := [];
    }

    /** `assignedObjects.push(target, source)`. */
    method Push(target: NodeId, source: NodeId)
      modifies this
      ensures items == old(items) + [target, source]
    {
      items := items + [target, source];
    }
  }

  /** The objects the program can reach, updated in place. */
  class Heap {
    var objects: map<NodeId, JsObject>
    var next: NodeId

    function State(): Store
      reads this
    {
      Store(objects, next)
    }

    constructor (st: Store)
      requires Valid(st)
      ensures State() == st
    {
      objects := st.objects;
      next := st.next;
    }

    /** `Reflect.construct(value.constructor, value)`: allocates a fresh empty
        object of the given kind. */
    method Construct(kind: Kind) returns (id: NodeId)
      requires Valid(State())
      modifies this
      ensures (State(), id) == ObjectStore.Construct(old(State()), kind)
    {
      id := next;
      objects := objects[id := Empty(kind)];
      next := next + 1;
    }

    /** `setValue(target, key, value)`: `target.set(key, value)` on a Map or a
        Set (which has no `set`), `target[key] = value` otherwise. */
    method SetValue(target: NodeId, key: Key, value: Value) returns (status: AssignSpec.Status)
      requires Valid(State()) && target in objects && ValueIn(State(), value)
      modifies this
      ensures Write(old(State()), target, key, value).Ok? ==>
                status == AssignSpec.Completed && State() == Write(old(State()), target, key, value).value
      ensures Write(old(State()), target, key, value).Err? ==>
                status == AssignSpec.Thrown(Write(old(State()), target, key, value).error) && State() == old(State())
    {
      var o := objects[target];
      if IsMap(o) || IsSet(o) {
        if IsMap(o) {
          objects := objects[target := Put(o, key, value)];
          status := AssignSpec.Completed;
        } else {
          status := AssignSpec.Thrown(TypeError("set"));
        }
      } else {
        objects := objects[target := Put(o, key, value)];
        status := AssignSpec.Completed;
      }
    }

    /** `deepAssignWithOneSource(target, source, assignedObjects)`. */
    method AssignWithOneSource(target: NodeId, source: Value, assignedObjects: IdentityList) returns (status: AssignSpec.Status)
      requires Valid(State()) && target in objects && VisitedIn(State(), assignedObjects.items)
      requires source == Prim(Null) || (source.Ref? && source.id in objects)
      modifies this, assignedObjects
      ensures var r := AssignSpec.AssignWithOneSource(old(State()), target, source, old(assignedObjects.items));
              State() == r.store && assignedObjects.items == r.visited && status == r.status
      decreases |Unvisited(State(), assignedObjects.items)| + (if source == Ref(target) then 1 else 0), 1, 0
    {
      if source == Prim(Null) {
        return AssignSpec.Thrown(NullSource);
      }
      if target in assignedObjects.items || source.id in assignedObjects.items {
        return AssignSpec.Thrown(CircularReference);
      }
      UnvisitedAfterPush(State(), assignedObjects.items, target, source.id);
      assignedObjects.Push(target, source.id);
      var keys := GetIterator(objects[source.id]);
      status := AssignKeys(target, source.id, keys, assignedObjects);
    }

    /** The `while` loop of `deepAssignWithOneSource` over the source's keys,
        taken from `getIterator(source)` before the first turn. */
    method AssignKeys(target: NodeId, source: NodeId, keys: seq<Key>, assignedObjects: IdentityList) returns (status: AssignSpec.Status)
      requires Valid(State()) && target in objects && source in objects && VisitedIn(State(), assignedObjects.items)
      modifies this, assignedObjects
      ensures var r := AssignSpec.AssignKeys(old(State()), target, source, keys, 0, old(assignedObjects.items));
              State() == r.store && assignedObjects.items == r.visited && status == r.status
      decreases |Unvisited(State(), assignedObjects.items)| + 1, 2, 1
    {
      ghost var st0, visited0 := State(), assignedObjects.items;
      var i := 0;
      while i < |keys|
        invariant i <= |keys|
        invariant Valid(State()) && Grows(st0, State())
        invariant VisitedIn(State(), assignedObjects.items)
        invariant Unvisited(State(), assignedObjects.items) <= Unvisited(st0, visited0)
        invariant AssignSpec.AssignKeys(st0, target, source, keys, 0, visited0)
               == AssignSpec.AssignKeys(State(), target, source, keys, i, assignedObjects.items)
      {
        ghost var before, visitedBefore := State(), assignedObjects.items;
        CardSubset(Unvisited(before, visitedBefore), Unvisited(st0, visited0));
        status := AssignKey(target, source, keys[i], assignedObjects);
        if status.Thrown? {
          return;
        }
        CardSubset(Unvisited(State(), assignedObjects.items), Unvisited(before, visitedBefore));
        i := i + 1;
      }
      return AssignSpec.Completed;
    }

    /** One turn of the `while` loop of `deepAssignWithOneSource`, for the key `key`. */
    method AssignKey(target: NodeId, source: NodeId, key: Key, assignedObjects: IdentityList) returns (status: AssignSpec.Status)
      requires Valid(State()) && target in objects && source in objects && VisitedIn(State(), assignedObjects.items)
      modifies this, assignedObjects
      ensures var r := AssignSpec.AssignKey(old(State()), target, source, key, old(assignedObjects.items));
              State() == r.store && assignedObjects.items == r.visited && status == r.status
      decreases |Unvisited(State(), assignedObjects.items)| + 1, 2, 0
    {
      ghost var before := State();
      var value := GetValue(objects[source], key);
      if value.Err? {
        return AssignSpec.Thrown(value.error);
      }
      if IsObject(value.value) {
        var copy := Construct(objects[value.value.id].kind);
        status := SetValue(target, key, Ref(copy));
        if status.Thrown? {
          return;
        }
        var back := GetValue(objects[target], key);
        assert back == Ok(Ref(copy));
        UnvisitedAfterAlloc(before, State(), assignedObjects.items, copy);
        status := AssignWithOneSource(back.value.id, value.value, assignedObjects);
      } else {
        status := SetValue(target, key, value.value);
      }
    }

    /** `deepAssign(target, ...sources)`: returns `Object(target)`. */
    method DeepAssign(target: Value, sources: seq<Value>) returns (result: NodeId, status: AssignSpec.Status)
      requires Valid(State()) && ValueIn(State(), target) && ValuesIn(State(), sources)
      modifies this
      ensures var r := AssignSpec.DeepAssign(old(State()), target, sources);
              State() == r.store && result == r.result && status == r.status
    {
      if IsObject(target) {
        result := target.id;
      } else {
        result := Construct(PlainKind);
      }
      ghost var boxed := State();
      ValuesInGrows(old(State()), boxed, sources);
      status := AssignSpec.Completed;
      var i := 0;
      while i < |sources|
        invariant i <= |sources|
        invariant Valid(State()) && result in objects && ValuesIn(State(), sources)
        invariant status == AssignSpec.Completed
        invariant AssignSpec.AssignSources(boxed, result, sources)
               == AssignSpec.AssignSources(State(), result, sources[i..])
      {
        ghost var before := State();
        var source := sources[i];
        assert sources[i..][0] == source && sources[i..][1..] == sources[i + 1..];
        if IsObject(source) {
          assert ValueIn(State(), source);
          var assignedObjects := new IdentityList();
          status := AssignWithOneSource(result, source, assignedObjects);
          if status.Thrown? {
            return;
          }
          ValuesInGrows(before, State(), sources);
        }
        i := i + 1;
      }
    }
  }
}
