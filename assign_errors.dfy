/** When one source's assignment throws. The visited list is only ever
    appended to, so meeting any node a second time (a cycle, a sub-object
    shared by two keys, the target itself) throws the circular-reference
    error; the only other error is the host's TypeError on a Set. */
module AssignErrors {
  import opened JsValues
  import opened ObjectStore
  import opened AssignSpec
  import opened AssignFrame

  /** The outcomes a call can have on a heap without Sets. */
  predicate Explained(status: Status) {
    status == Completed || status == Thrown(CircularReference)
  }

  lemma {:induction false} AssignWithOneSourceErrors(st: Store, t: NodeId, s: Value, visited: seq<NodeId>)
    requires Valid(st) && t in st.objects && VisitedIn(st, visited)
    requires s == Prim(Null) || (s.Ref? && s.id in st.objects)
    ensures NoSets(st) && s.Ref? ==> Explained(AssignWithOneSource(st, t, s, visited).status)
    decreases |Unvisited(st, visited)| + (if s == Ref(t) then 1 else 0), 1, 0
  {
    if s != Prim(Null) && t !in visited && s.id !in visited {
      UnvisitedAfterPush(st, visited, t, s.id);
      AssignKeysErrors(st, t, s.id, GetIterator(st.objects[s.id]), 0, visited + [t, s.id]);
    }
  }

  lemma {:induction false} AssignKeysErrors(st: Store, t: NodeId, s: NodeId, keys: seq<Key>, i: nat, visited: seq<NodeId>)
    requires Valid(st) && t in st.objects && s in st.objects && VisitedIn(st, visited)
    requires i <= |keys|
    ensures NoSets(st) ==> Explained(AssignKeys(st, t, s, keys, i, visited).status)
    decreases |Unvisited(st, visited)| + 1, 2, 2 * (|keys| - i) + 1
  {
    if i < |keys| {
      var r1 := AssignKey(st, t, s, keys[i], visited);
      AssignKeyErrors(st, t, s, keys[i], visited);
      if r1.status.Completed? {
        CardSubset(Unvisited(r1.store, r1.visited), Unvisited(st, visited));
        var r2 := AssignKeys(r1.store, t, s, keys, i + 1, r1.visited);
        assert AssignKeys(st, t, s, keys, i, visited) == r2;
        AssignKeyFrame(st, t, s, keys[i], visited);
        AssignKeysErrors(r1.store, t, s, keys, i + 1, r1.visited);
      }
    }
  }

  lemma {:induction false} AssignKeyErrors(st: Store, t: NodeId, s: NodeId, k: Key, visited: seq<NodeId>)
    requires Valid(st) && t in st.objects && s in st.objects && VisitedIn(st, visited)
    ensures NoSets(st) ==> Explained(AssignKey(st, t, s, k, visited).status)
    decreases |Unvisited(st, visited)| + 1, 2, 0
  {
    if NoSets(st) {
      assert !IsSet(st.objects[s]) && !IsSet(st.objects[t]);
      var read := Read(st, s, k);
      if IsObject(read.value) {
        var v := read.value;
        var (st1, f) := Construct(st, st.objects[v.id].kind);
        CopyKeepsNoSets(st, t, k, st.objects[v.id].kind);
        var st2 := Write(st1, t, k, Ref(f)).value;
        UnvisitedAfterAlloc(st, st2, visited, f);
        assert AssignKey(st, t, s, k, visited) == AssignWithOneSource(st2, f, v, visited);
        AssignWithOneSourceErrors(st2, f, v, visited);
      }
    }
  }

  /** One turn whose value is an object already on the visited list throws. */
  lemma AssignKeyRevisits(st: Store, t: NodeId, s: NodeId, k: Key, visited: seq<NodeId>)
    requires Valid(st) && t in st.objects && s in st.objects && VisitedIn(st, visited)
    ensures var v := Lookup(st.objects[s], k);
            v.Ref? && v.id in visited ==> AssignKey(st, t, s, k, visited).status.Thrown?
  {
    var read := Read(st, s, k);
    if read.Ok? && IsObject(read.value) && read.value.id in visited {
      var v := read.value;
      var (st1, f) := Construct(st, st.objects[v.id].kind);
      var written := Write(st1, t, k, Ref(f));
      if written.Ok? {
        var st2 := written.value;
        UnvisitedAfterAlloc(st, st2, visited, f);
        assert AssignKey(st, t, s, k, visited) == AssignWithOneSource(st2, f, v, visited);
      }
    }
  }

  /** A turn that completes on an object value has put that object on the
      visited list. */
  lemma AssignKeyVisits(st: Store, t: NodeId, s: NodeId, k: Key, visited: seq<NodeId>)
    requires Valid(st) && t in st.objects && s in st.objects && VisitedIn(st, visited)
    ensures Lookup(st.objects[s], k).Ref? && AssignKey(st, t, s, k, visited).status.Completed? ==>
              Lookup(st.objects[s], k).id in AssignKey(st, t, s, k, visited).visited
  {
    var read := Read(st, s, k);
    if read.Ok? && IsObject(read.value) {
      var v := read.value;
      var (st1, f) := Construct(st, st.objects[v.id].kind);
      var written := Write(st1, t, k, Ref(f));
      if written.Ok? {
        var st2 := written.value;
        UnvisitedAfterAlloc(st, st2, visited, f);
        assert AssignKey(st, t, s, k, visited) == AssignWithOneSource(st2, f, v, visited);
      }
    }
  }
}
