/** What deepAssign does, as functions of the heap: the recursion of
    `deepAssignWithOneSource` (split into the call itself, the walk over the
    source's keys and one turn of that walk), the fold over the sources, and
    the boxing of the target. */
module AssignSpec {
  import opened JsValues
  import opened ObjectStore

  datatype Status = Completed | Thrown(error: Error)

  /** The heap and the visited list after a call, and how the call ended.
      Writes made before a throw stay in `store`: nothing is rolled back. */
  datatype Outcome = Outcome(store: Store, visited: seq<NodeId>, status: Status)

  /** What a call keeps whatever its outcome: the heap stays valid, nothing is
      freed, the visited list only grows and holds live identities. */
  ghost predicate Keeps(st: Store, visited: seq<NodeId>, r: Outcome) {
    Valid(r.store) && Grows(st, r.store) && VisitedIn(r.store, r.visited) && visited <= r.visited
  }

  /** `deepAssignWithOneSource(target, source, assignedObjects)`. The callers
      only ever pass an object (or, in principle, null) as the source. */
  function AssignWithOneSource(st: Store, t: NodeId, s: Value, visited: seq<NodeId>): (r: Outcome)
    requires Valid(st) && t in st.objects && VisitedIn(st, visited)
    requires s == Prim(Null) || (s.Ref? && s.id in st.objects)
    ensures Keeps(st, visited, r)
    ensures r.status == Thrown(NullSource) <==> s == Prim(Null)
    ensures r.status.Completed? ==> Unvisited(r.store, r.visited) <= Unvisited(st, visited) - {t}
    ensures r.status.Completed? ==> s.Ref? && t in r.visited && s.id in r.visited
    decreases |Unvisited(st, visited)| + (if s == Ref(t) then 1 else 0), 1, 0
  {
    if s == Prim(Null) then
      Outcome(st, visited, Thrown(NullSource))
    else if t in visited || s.id in visited then
      Outcome(st, visited, Thrown(CircularReference))
    else
      UnvisitedAfterPush(st, visited, t, s.id);
      AssignKeys(st, t, s.id, GetIterator(st.objects[s.id]), 0, visited + [t, s.id])
  }

  /** The `while` loop over the source's keys, from the `i`-th key on. */
  function AssignKeys(st: Store, t: NodeId, s: NodeId, keys: seq<Key>, i: nat, visited: seq<NodeId>): (r: Outcome)
    requires Valid(st) && t in st.objects && s in st.objects && VisitedIn(st, visited)
    requires i <= |keys|
    ensures Keeps(st, visited, r)
    ensures r.status != Thrown(NullSource)
    ensures r.status.Completed? ==> Unvisited(r.store, r.visited) <= Unvisited(st, visited)
    decreases |Unvisited(st, visited)| + 1, 2, 2 * (|keys| - i) + 1
  {
    if i == |keys| then
      Outcome(st, visited, Completed)
    else
      var r := AssignKey(st, t, s, keys[i], visited);
      if r.status.Thrown? then
        r
      else
        CardSubset(Unvisited(r.store, r.visited), Unvisited(st, visited));
        AssignKeys(r.store, t, s, keys, i + 1, r.visited)
  }

  /** One turn of the loop: read the source's value at `k`; an object value
      gets a fresh empty object of its kind stored at `k` in the target, which
      is then filled from it recursively; anything else is stored as it is. */
  function AssignKey(st: Store, t: NodeId, s: NodeId, k: Key, visited: seq<NodeId>): (r: Outcome)
    requires Valid(st) && t in st.objects && s in st.objects && VisitedIn(st, visited)
    ensures Keeps(st, visited, r)
    ensures r.status != Thrown(NullSource)
    ensures r.status.Completed? ==> Unvisited(r.store, r.visited) <= Unvisited(st, visited)
    decreases |Unvisited(st, visited)| + 1, 2, 0
  {
    match Read(st, s, k)
    case Err(e) => Outcome(st, visited, Thrown(e))
    case Ok(v) =>
      if IsObject(v) then
        var (st1, f) := Construct(st, st.objects[v.id].kind);
        match Write(st1, t, k, Ref(f))
        case Err(e) => Outcome(st1, visited, Thrown(e))
        case Ok(st2) =>
          UnvisitedAfterAlloc(st, st2, visited, f);
          AssignWithOneSource(st2, f, v, visited)
      else
        match Write(st, t, k, v)
        case Err(e) => Outcome(st, visited, Thrown(e))
        case Ok(st1) => Outcome(st1, visited, Completed)
  }

  /** The `forEach` over the sources: each object source in turn, with a new
      empty visited list; anything that is not an object is skipped; the first
      throw ends the whole call. */
  function AssignSources(st: Store, t: NodeId, sources: seq<Value>): (r: (Store, Status))
    requires Valid(st) && t in st.objects
    requires ValuesIn(st, sources)
    ensures Valid(r.0) && Grows(st, r.0)
    ensures r.1 != Thrown(NullSource)
    decreases |sources|
  {
    if sources == [] then
      (st, Completed)
    else if IsObject(sources[0]) then
      assert ValueIn(st, sources[0]);
      var r := AssignWithOneSource(st, t, sources[0], []);
      if r.status.Thrown? then (r.store, r.status)
      else
        ValuesInGrows(st, r.store, sources[1..]);
        AssignSources(r.store, t, sources[1..])
    else
      AssignSources(st, t, sources[1..])
  }

  /** `Object(target)`: an object is its own box; any other value gets a new
      wrapper, modelled as a fresh empty plain object. */
  function Box(st: Store, target: Value): (r: (Store, NodeId))
    requires Valid(st) && ValueIn(st, target)
    ensures Valid(r.0) && Grows(st, r.0) && r.1 in r.0.objects
    ensures IsObject(target) ==> r == (st, target.id)
    ensures !IsObject(target) ==> r.1 !in st.objects && r.0.objects[r.1] == Empty(PlainKind) && UnchangedExcept(st, r.0, r.1)
  {
    if IsObject(target) then (st, target.id) else Construct(st, PlainKind)
  }

  /** The heap after the call, the object the call returns, and how it ended. */
  datatype Assigned = Assigned(store: Store, result: NodeId, status: Status)

  /** `deepAssign(target, ...sources)`. */
  function DeepAssign(st: Store, target: Value, sources: seq<Value>): (r: Assigned)
    requires Valid(st) && ValueIn(st, target)
    requires ValuesIn(st, sources)
    ensures Valid(r.store) && Grows(st, r.store) && r.result in r.store.objects
    ensures IsObject(target) ==> r.result == target.id
    ensures !IsObject(target) ==> r.result !in st.objects
    ensures r.status != Thrown(NullSource)
  {
    var (st1, t) := Box(st, target);
    ValuesInGrows(st, st1, sources);
    var (st2, status) := AssignSources(st1, t, sources);
    Assigned(st2, t, status)
  }
}
