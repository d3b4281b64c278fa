/** What one source's assignment may change. Whatever the outcome, the only
    object live beforehand that changes is the target; the target keeps its
    kind and the order of its keys, and changes only at the source's keys. */
module AssignFrame {
  import opened JsValues
  import opened ObjectStore
  import opened AssignSpec

  /** `t` kept its kind and the order of the keys it had. */
  ghost predicate TargetKept(st: Store, st': Store, t: NodeId)
    requires t in st.objects && t in st'.objects
  {
    st'.objects[t].kind == st.objects[t].kind && st.objects[t].keys <= st'.objects[t].keys
  }

  /** `t` has the same entry at `k` in `st'` as in `st` (or none in both). */
  ghost predicate SameEntry(st: Store, st': Store, t: NodeId, k: Key)
    requires t in st.objects && t in st'.objects
  {
    (k in st'.objects[t].props <==> k in st.objects[t].props) &&
    (k in st.objects[t].props ==> st'.objects[t].props[k] == st.objects[t].props[k])
  }

  /** No object in the heap is a Set. */
  ghost predicate NoSets(st: Store) {
    forall id :: id in st.objects ==> !IsSet(st.objects[id])
  }

  lemma {:induction false} AssignWithOneSourceFrame(st: Store, t: NodeId, s: Value, visited: seq<NodeId>)
    requires Valid(st) && t in st.objects && VisitedIn(st, visited)
    requires s == Prim(Null) || (s.Ref? && s.id in st.objects)
    ensures UnchangedExcept(st, AssignWithOneSource(st, t, s, visited).store, t)
    ensures TargetKept(st, AssignWithOneSource(st, t, s, visited).store, t)
    ensures NoSets(st) ==> NoSets(AssignWithOneSource(st, t, s, visited).store)
    decreases |Unvisited(st, visited)| + (if s == Ref(t) then 1 else 0), 1, 0
  {
    if s != Prim(Null) && t !in visited && s.id !in visited {
      UnvisitedAfterPush(st, visited, t, s.id);
      AssignKeysFrame(st, t, s.id, GetIterator(st.objects[s.id]), 0, visited + [t, s.id]);
    }
  }

  lemma {:induction false} AssignKeysFrame(st: Store, t: NodeId, s: NodeId, keys: seq<Key>, i: nat, visited: seq<NodeId>)
    requires Valid(st) && t in st.objects && s in st.objects && VisitedIn(st, visited)
    requires i <= |keys|
    ensures UnchangedExcept(st, AssignKeys(st, t, s, keys, i, visited).store, t)
    ensures TargetKept(st, AssignKeys(st, t, s, keys, i, visited).store, t)
    ensures NoSets(st) ==> NoSets(AssignKeys(st, t, s, keys, i, visited).store)
    decreases |Unvisited(st, visited)| + 1, 2, 2 * (|keys| - i) + 1
  {
    if i < |keys| {
      var r1 := AssignKey(st, t, s, keys[i], visited);
      AssignKeyFrame(st, t, s, keys[i], visited);
      if r1.status.Completed? {
        CardSubset(Unvisited(r1.store, r1.visited), Unvisited(st, visited));
        var r2 := AssignKeys(r1.store, t, s, keys, i + 1, r1.visited);
        assert AssignKeys(st, t, s, keys, i, visited) == r2;
        AssignKeysFrame(r1.store, t, s, keys, i + 1, r1.visited);
      }
    }
  }

  lemma {:induction false} AssignKeyFrame(st: Store, t: NodeId, s: NodeId, k: Key, visited: seq<NodeId>)
    requires Valid(st) && t in st.objects && s in st.objects && VisitedIn(st, visited)
    ensures UnchangedExcept(st, AssignKey(st, t, s, k, visited).store, t)
    ensures TargetKept(st, AssignKey(st, t, s, k, visited).store, t)
    ensures NoSets(st) ==> NoSets(AssignKey(st, t, s, k, visited).store)
    decreases |Unvisited(st, visited)| + 1, 2, 0
  {
    var read := Read(st, s, k);
    if read.Ok? && IsObject(read.value) {
      var v := read.value;
      var (st1, f) := Construct(st, st.objects[v.id].kind);
      var written := Write(st1, t, k, Ref(f));
      if written.Ok? {
        var st2 := written.value;
        UnvisitedAfterAlloc(st, st2, visited, f);
        var r := AssignWithOneSource(st2, f, v, visited);
        assert AssignKey(st, t, s, k, visited) == r;
        AssignWithOneSourceFrame(st2, f, v, visited);
        CopyFrame(st, st1, st2, r.store, t, f, k);
      } else {
        assert AssignKey(st, t, s, k, visited).store == st1;
      }
    } else if read.Ok? {
      var written := Write(st, t, k, read.value);
      if written.Ok? {
        assert AssignKey(st, t, s, k, visited).store == written.value;
        WriteFrame(st, written.value, t, k, read.value);
      }
    }
  }

  /** Storing `v` in `t` at `k` changes only `t`, which keeps its kind and key order. */
  lemma WriteFrame(st: Store, st1: Store, t: NodeId, k: Key, v: Value)
    requires t in st.objects && st1.objects.Keys == st.objects.Keys
    requires UnchangedExcept(st, st1, t) && st1.objects[t] == Put(st.objects[t], k, v)
    ensures TargetKept(st, st1, t)
    ensures NoSets(st) ==> NoSets(st1)
  {
  }

  /** Allocating `f`, storing it in `t` at `k`, then filling `f` changes no
      object that was live before except `t`, which keeps its kind and key order. */
  lemma CopyFrame(st: Store, st1: Store, st2: Store, st3: Store, t: NodeId, f: NodeId, k: Key)
    requires t in st.objects && f !in st.objects && st1.objects.Keys == st.objects.Keys + {f}
    requires UnchangedExcept(st, st1, f) && UnchangedExcept(st1, st2, t) && UnchangedExcept(st2, st3, f)
    requires st2.objects.Keys == st1.objects.Keys && st2.objects[t] == Put(st1.objects[t], k, Ref(f))
    requires NoSets(st) ==> !IsSet(st1.objects[f])
    requires NoSets(st2) ==> NoSets(st3)
    ensures UnchangedExcept(st, st3, t) && TargetKept(st, st3, t)
    ensures NoSets(st) ==> NoSets(st3)
  {
    assert st3.objects[t] == st2.objects[t];
    if NoSets(st) {
      assert NoSets(st1);
      assert NoSets(st2);
    }
  }

  /** One turn for the key `j` leaves the target's entry at any other key `k`
      as it was, whatever the outcome. */
  lemma AssignKeyKeeps(st: Store, t: NodeId, s: NodeId, j: Key, visited: seq<NodeId>, k: Key)
    requires Valid(st) && t in st.objects && s in st.objects && VisitedIn(st, visited)
    requires k != j
    ensures SameEntry(st, AssignKey(st, t, s, j, visited).store, t, k)
  {
    var read := Read(st, s, j);
    if read.Ok? && IsObject(read.value) {
      var v := read.value;
      var (st1, f) := Construct(st, st.objects[v.id].kind);
      var written := Write(st1, t, j, Ref(f));
      if written.Ok? {
        var st2 := written.value;
        UnvisitedAfterAlloc(st, st2, visited, f);
        var r := AssignWithOneSource(st2, f, v, visited);
        assert AssignKey(st, t, s, j, visited) == r;
        AssignWithOneSourceFrame(st2, f, v, visited);
        assert r.store.objects[t] == st2.objects[t];
      } else {
        assert AssignKey(st, t, s, j, visited).store == st1;
      }
    } else if read.Ok? {
      var written := Write(st, t, j, read.value);
      if written.Ok? {
        assert AssignKey(st, t, s, j, visited).store == written.value;
      }
    }
  }

  /** The walk from the `i`-th key on leaves the target's entry at a key it
      does not reach as it was, whatever the outcome. */
  lemma {:induction false} AssignKeysKeeps(st: Store, t: NodeId, s: NodeId, keys: seq<Key>, i: nat, visited: seq<NodeId>, k: Key)
    requires Valid(st) && t in st.objects && s in st.objects && VisitedIn(st, visited)
    requires i <= |keys|
    requires forall m :: i <= m < |keys| ==> keys[m] != k
    ensures SameEntry(st, AssignKeys(st, t, s, keys, i, visited).store, t, k)
    decreases |keys| - i
  {
    if i < |keys| {
      var r1 := AssignKey(st, t, s, keys[i], visited);
      AssignKeyKeeps(st, t, s, keys[i], visited, k);
      if r1.status.Completed? {
        var r2 := AssignKeys(r1.store, t, s, keys, i + 1, r1.visited);
        assert AssignKeys(st, t, s, keys, i, visited) == r2;
        AssignKeysKeeps(r1.store, t, s, keys, i + 1, r1.visited, k);
      }
    }
  }

  /** Nothing else changes: the target's entry at a key the source does not
      have is the same after the call as before, whatever the outcome. */
  lemma AssignWithOneSourceKeeps(st: Store, t: NodeId, s: Value, visited: seq<NodeId>, k: Key)
    requires Valid(st) && t in st.objects && VisitedIn(st, visited)
    requires s == Prim(Null) || (s.Ref? && s.id in st.objects)
    requires s.Ref? ==> k !in st.objects[s.id].props
    ensures SameEntry(st, AssignWithOneSource(st, t, s, visited).store, t, k)
  {
    if s != Prim(Null) && t !in visited && s.id !in visited {
      UnvisitedAfterPush(st, visited, t, s.id);
      var keys := GetIterator(st.objects[s.id]);
      forall m | 0 <= m < |keys| ensures keys[m] != k {
        assert keys[m] in keys;
      }
      AssignKeysKeeps(st, t, s.id, keys, 0, visited + [t, s.id], k);
    }
  }

  /** What `s` holds at `k` is unchanged by a step that changes only `t`, and
      `t` only at other keys. */
  lemma SourceEntryKept(st: Store, st': Store, t: NodeId, s: NodeId, k: Key)
    requires t in st.objects && t in st'.objects && s in st.objects
    requires UnchangedExcept(st, st', t) && SameEntry(st, st', t, k)
    ensures s in st'.objects && Lookup(st'.objects[s], k) == Lookup(st.objects[s], k)
  {
  }

  /** Storing a fresh empty copy (not a Set) in a target that is not a Set
      succeeds and leaves the heap without Sets. */
  lemma CopyKeepsNoSets(st: Store, t: NodeId, k: Key, kind: Kind)
    requires Valid(st) && t in st.objects && NoSets(st) && kind != SetKind
    ensures var (st1, f) := Construct(st, kind);
            Write(st1, t, k, Ref(f)).Ok? && NoSets(Write(st1, t, k, Ref(f)).value)
  {
    var (st1, f) := Construct(st, kind);
    assert st1.objects[t] == st.objects[t];
    var st2 := Write(st1, t, k, Ref(f)).value;
    forall id | id in st2.objects
      ensures !IsSet(st2.objects[id])
    {
      if id != t && id != f {
        assert st2.objects[id] == st.objects[id];
      }
    }
  }
}
