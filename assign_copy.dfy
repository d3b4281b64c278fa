/** What one source's assignment writes into the target: at each of the
    source's keys, a primitive is stored as it is and an object is replaced by
    a fresh container of the same kind; new keys are appended in the source's
    order after the target's own. */
module AssignCopy {
  import opened JsValues
  import opened ObjectStore
  import opened AssignSpec
  import opened AssignFrame

  /** `t` holds at `k` what the routine makes of the source value `v`: `v`
      itself when it is a primitive, otherwise a container that did not exist
      in `st` and has the kind `v` had in `st`. */
  ghost predicate Copied(st: Store, st': Store, t: NodeId, k: Key, v: Value)
    requires t in st'.objects
  {
    k in st'.objects[t].props &&
    var c := st'.objects[t].props[k];
    if IsObject(v) then
      c.Ref? && c.id !in st.objects && c.id in st'.objects && v.id in st.objects &&
      st'.objects[c.id].kind == st.objects[v.id].kind
    else
      c == v
  }

  /** A copy made after `st1` was also made after any earlier `st`. */
  lemma CopiedEarlier(st: Store, st1: Store, st': Store, t: NodeId, k: Key, v: Value)
    requires t in st.objects && t in st'.objects && Grows(st, st1)
    requires UnchangedExcept(st, st1, t) && t in st1.objects && TargetKept(st, st1, t)
    requires v.Ref? ==> v.id in st.objects
    requires Copied(st1, st', t, k, v)
    ensures Copied(st, st', t, k, v)
  {
  }

  /** A copy survives later steps that leave the target's entry alone and
      change no other object. */
  lemma CopiedPersists(st: Store, st1: Store, st2: Store, t: NodeId, k: Key, v: Value)
    requires t in st.objects && t in st1.objects && t in st2.objects
    requires Copied(st, st1, t, k, v)
    requires SameEntry(st1, st2, t, k) && UnchangedExcept(st1, st2, t)
    ensures Copied(st, st2, t, k, v)
  {
  }

  /** One turn for the key `k`: unless the source or the target is a Set (which
      throws before anything is written), the target ends up holding the copy
      of the source's value at `k`, even when filling a fresh container fails
      later; a primitive value never makes the turn fail. */
  lemma AssignKeyCopies(st: Store, t: NodeId, s: NodeId, k: Key, visited: seq<NodeId>)
    requires Valid(st) && t in st.objects && s in st.objects && VisitedIn(st, visited)
    ensures var r := AssignKey(st, t, s, k, visited);
            !IsSet(st.objects[s]) && !IsSet(st.objects[t]) ==> Copied(st, r.store, t, k, Lookup(st.objects[s], k))
    ensures var r := AssignKey(st, t, s, k, visited);
            !IsSet(st.objects[s]) && !IsSet(st.objects[t]) && !IsObject(Lookup(st.objects[s], k)) ==> r.status == Completed
  {
    var read := Read(st, s, k);
    if read.Ok? && IsObject(read.value) {
      var v := read.value;
      var (st1, f) := Construct(st, st.objects[v.id].kind);
      var written := Write(st1, t, k, Ref(f));
      if written.Ok? {
        var st2 := written.value;
        UnvisitedAfterAlloc(st, st2, visited, f);
        var r := AssignWithOneSource(st2, f, v, visited);
        assert AssignKey(st, t, s, k, visited) == r;
        AssignWithOneSourceFrame(st2, f, v, visited);
        assert r.store.objects[t] == st2.objects[t];
        assert r.store.objects[f].kind == st.objects[v.id].kind;
      }
    }
  }

  /** The walk from the `i`-th key on, when it completes, leaves the copy of
      the source's value at every key it reaches, as that value was when the
      walk started: an earlier turn can only change the source when the source
      is the target itself, and then only at other keys. */
  lemma {:induction false} AssignKeysCopies(st: Store, t: NodeId, s: NodeId, keys: seq<Key>, i: nat, visited: seq<NodeId>, m: nat)
    requires Valid(st) && t in st.objects && s in st.objects && VisitedIn(st, visited)
    requires Distinct(keys) && i <= m < |keys|
    ensures var r := AssignKeys(st, t, s, keys, i, visited);
            r.status == Completed ==> Copied(st, r.store, t, keys[m], Lookup(st.objects[s], keys[m]))
    decreases |keys| - i
  {
    var r1 := AssignKey(st, t, s, keys[i], visited);
    if r1.status.Completed? {
      var r := AssignKeys(r1.store, t, s, keys, i + 1, r1.visited);
      assert AssignKeys(st, t, s, keys, i, visited) == r;
      AssignKeyFrame(st, t, s, keys[i], visited);
      AssignKeysFrame(r1.store, t, s, keys, i + 1, r1.visited);
      if i == m {
        AssignKeyCopies(st, t, s, keys[i], visited);
        AssignKeysKeeps(r1.store, t, s, keys, i + 1, r1.visited, keys[m]);
        if r.status == Completed {
          CopiedPersists(st, r1.store, r.store, t, keys[m], Lookup(st.objects[s], keys[m]));
        }
      } else {
        AssignKeyKeeps(st, t, s, keys[i], visited, keys[m]);
        SourceEntryKept(st, r1.store, t, s, keys[m]);
        AssignKeysCopies(r1.store, t, s, keys, i + 1, r1.visited, m);
        if r.status == Completed {
          CopiedEarlier(st, r1.store, r.store, t, keys[m], Lookup(st.objects[s], keys[m]));
        }
      }
    }
  }

  /** Primitive copy and fresh containers: after a call that completes, the
      target holds at every key of the source the copy of the source's value
      there, as the source was when the call began. */
  lemma AssignWithOneSourceCopies(st: Store, t: NodeId, s: Value, visited: seq<NodeId>, k: Key)
    requires Valid(st) && t in st.objects && VisitedIn(st, visited)
    requires s.Ref? && s.id in st.objects && k in st.objects[s.id].props
    ensures var r := AssignWithOneSource(st, t, s, visited);
            r.status == Completed ==> Copied(st, r.store, t, k, st.objects[s.id].props[k])
  {
    if t !in visited && s.id !in visited {
      UnvisitedAfterPush(st, visited, t, s.id);
      var keys := GetIterator(st.objects[s.id]);
      var m :| 0 <= m < |keys| && keys[m] == k;
      AssignKeysCopies(st, t, s.id, keys, 0, visited + [t, s.id], m);
    }
  }

  /** The target's keys after writing `added` one by one: a key it already has
      keeps its place, a new one goes last. */
  function MergeKeys(ks: seq<Key>, added: seq<Key>): seq<Key>
    decreases |added|
  {
    if added == [] then ks
    else MergeKeys(if added[0] in ks then ks else ks + [added[0]], added[1..])
  }

  /** Merging keeps the keys already there as a prefix and adds at most the
      merged ones. */
  lemma {:induction false} MergeKeysGrows(ks: seq<Key>, added: seq<Key>)
    ensures ks <= MergeKeys(ks, added) && |MergeKeys(ks, added)| <= |ks| + |added|
    decreases |added|
  {
    if added != [] {
      var ks' := if added[0] in ks then ks else ks + [added[0]];
      MergeKeysGrows(ks', added[1..]);
      assert ks <= ks';
    }
  }

  /** Merging keys none of which is there yet appends them all, in order. */
  lemma {:induction false} MergeNewKeys(ks: seq<Key>, added: seq<Key>)
    requires Distinct(added)
    requires forall m :: 0 <= m < |added| ==> added[m] !in ks
    ensures MergeKeys(ks, added) == ks + added
    decreases |added|
  {
    if added != [] {
      var k, rest := added[0], added[1..];
      assert MergeKeys(ks, added) == MergeKeys(ks + [k], rest) by {
        assert k !in ks;
      }
      assert MergeKeys(ks + [k], rest) == ks + [k] + rest by {
        NewKeysAfterFirst(ks, added);
        MergeNewKeys(ks + [k], rest);
      }
      assert ks + [k] + rest == ks + added by {
        assert added == [k] + rest;
      }
    }
  }

  /** Once the first of distinct new keys is merged, the others are still new. */
  lemma NewKeysAfterFirst(ks: seq<Key>, added: seq<Key>)
    requires Distinct(added) && added != []
    requires forall m :: 0 <= m < |added| ==> added[m] !in ks
    ensures Distinct(added[1..])
    ensures forall m :: 0 <= m < |added[1..]| ==> added[1..][m] !in ks + [added[0]]
  {
    forall m | 0 <= m < |added[1..]| ensures added[1..][m] !in ks + [added[0]] {
      assert added[1..][m] == added[m + 1] != added[0];
    }
  }

  /** One turn for `k` that completes leaves the target's keys as writing `k`
      leaves them. */
  lemma AssignKeyKeyOrder(st: Store, t: NodeId, s: NodeId, k: Key, visited: seq<NodeId>)
    requires Valid(st) && t in st.objects && s in st.objects && VisitedIn(st, visited)
    ensures var r := AssignKey(st, t, s, k, visited); var ks := st.objects[t].keys;
            r.status == Completed ==> r.store.objects[t].keys == if k in ks then ks else ks + [k]
  {
    var read := Read(st, s, k);
    assert WellFormed(st.objects[t]);
    if read.Ok? && IsObject(read.value) {
      var v := read.value;
      var (st1, f) := Construct(st, st.objects[v.id].kind);
      var written := Write(st1, t, k, Ref(f));
      if written.Ok? {
        var st2 := written.value;
        UnvisitedAfterAlloc(st, st2, visited, f);
        var r := AssignWithOneSource(st2, f, v, visited);
        assert AssignKey(st, t, s, k, visited) == r;
        AssignWithOneSourceFrame(st2, f, v, visited);
        assert r.store.objects[t] == st2.objects[t];
      }
    }
  }

  /** The walk from the `i`-th key on, when it completes, leaves the target's
      keys merged with the keys it walked, in the walk's order. */
  lemma {:induction false} AssignKeysKeyOrder(st: Store, t: NodeId, s: NodeId, keys: seq<Key>, i: nat, visited: seq<NodeId>)
    requires Valid(st) && t in st.objects && s in st.objects && VisitedIn(st, visited)
    requires i <= |keys|
    ensures var r := AssignKeys(st, t, s, keys, i, visited);
            r.status == Completed ==> r.store.objects[t].keys == MergeKeys(st.objects[t].keys, keys[i..])
    decreases |keys| - i
  {
    if i < |keys| {
      var r1 := AssignKey(st, t, s, keys[i], visited);
      if r1.status.Completed? {
        var r := AssignKeys(r1.store, t, s, keys, i + 1, r1.visited);
        assert AssignKeys(st, t, s, keys, i, visited) == r;
        AssignKeyKeyOrder(st, t, s, keys[i], visited);
        AssignKeysKeyOrder(r1.store, t, s, keys, i + 1, r1.visited);
        assert keys[i..][0] == keys[i] && keys[i..][1..] == keys[i + 1..];
      }
    }
  }

  /** Order: after a call that completes, the target keeps its keys in their
      order, followed by the source's keys it did not have, in the source's
      order. */
  lemma AssignWithOneSourceKeyOrder(st: Store, t: NodeId, s: Value, visited: seq<NodeId>)
    requires Valid(st) && t in st.objects && VisitedIn(st, visited)
    requires s.Ref? && s.id in st.objects
    ensures var r := AssignWithOneSource(st, t, s, visited);
            r.status == Completed ==> r.store.objects[t].keys == MergeKeys(st.objects[t].keys, GetIterator(st.objects[s.id]))
  {
    if t !in visited && s.id !in visited {
      UnvisitedAfterPush(st, visited, t, s.id);
      var keys := GetIterator(st.objects[s.id]);
      assert keys[0..] == keys;
      AssignKeysKeyOrder(st, t, s.id, keys, 0, visited + [t, s.id]);
      assert AssignWithOneSource(st, t, s, visited) == AssignKeys(st, t, s.id, keys, 0, visited + [t, s.id]);
    }
  }

  /** Filling an empty container from a source that completes leaves it with
      exactly the source's keys, in the source's order. */
  lemma AssignWithOneSourceFillsEmpty(st: Store, t: NodeId, s: Value, visited: seq<NodeId>)
    requires Valid(st) && t in st.objects && VisitedIn(st, visited)
    requires s.Ref? && s.id in st.objects && st.objects[t].keys == []
    ensures var r := AssignWithOneSource(st, t, s, visited);
            r.status == Completed ==> r.store.objects[t].keys == st.objects[s.id].keys
  {
    AssignWithOneSourceKeyOrder(st, t, s, visited);
    var keys := GetIterator(st.objects[s.id]);
    MergeNewKeys([], keys);
    assert [] + keys == keys;
  }

  /** A fresh container that has been filled holds exactly the keys of the
      object it copies, in that object's order. The target is on the visited
      list, as it is in every turn of a walk. */
  lemma AssignKeyFillsCopy(st: Store, t: NodeId, s: NodeId, k: Key, visited: seq<NodeId>)
    requires Valid(st) && t in st.objects && s in st.objects && VisitedIn(st, visited)
    requires t in visited
    ensures var v := Lookup(st.objects[s], k); var r := AssignKey(st, t, s, k, visited);
            v.Ref? && r.status == Completed ==>
              k in r.store.objects[t].props && r.store.objects[t].props[k].Ref? &&
              r.store.objects[t].props[k].id in r.store.objects &&
              r.store.objects[r.store.objects[t].props[k].id].keys == st.objects[v.id].keys
  {
    var read := Read(st, s, k);
    if read.Ok? && IsObject(read.value) {
      var v := read.value;
      var (st1, f) := Construct(st, st.objects[v.id].kind);
      var written := Write(st1, t, k, Ref(f));
      if written.Ok? {
        var st2 := written.value;
        UnvisitedAfterAlloc(st, st2, visited, f);
        var r := AssignWithOneSource(st2, f, v, visited);
        assert AssignKey(st, t, s, k, visited) == r;
        if r.status == Completed {
          AssignWithOneSourceFrame(st2, f, v, visited);
          assert r.store.objects[t] == st2.objects[t];
          assert st2.objects[v.id] == st.objects[v.id];
          AssignWithOneSourceFillsEmpty(st2, f, v, visited);
        }
      }
    }
  }
}
